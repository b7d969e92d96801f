/**
  The per-rule resolver: given one redirect rule and the request URL, decide
  whether the rule redirects, is suppressed (stopping the caller's walk), or
  does not apply. The decision is an ordered chain of gates, each of which
  returns one `MatchResult`.
 */
module Matcher {
  import opened Types
  import opened GoStrings

  /** The crude test for an explicit scheme: either marker anywhere in the string. */
  predicate HasSchemeMarker(s: string) {
    Contains(s, "http://") || Contains(s, "https://")
  }

  /**
    Parses a rule or request string. A string without a scheme marker is
    tried with the context's scheme in front; that prefix is kept only when
    the prefixed string parses with a host, and a prefixed string that does
    not parse is an error.
   */
  function ParseUrlWithContext(p: Primitives, urlStr: string, ctx: MatchContext): (r: Option<Url>)
    ensures HasSchemeMarker(urlStr) ==> r == p.parse(urlStr)
    ensures r != p.parse(urlStr) ==>
      !HasSchemeMarker(urlStr) && r == p.parse(ctx.scheme + urlStr) && (r.Some? ==> r.value.host != "")
    ensures r.Some? && r.value.host == "" ==> r == p.parse(urlStr)
  {
    if !Contains(urlStr, "http://") && !Contains(urlStr, "https://") then
      var prefixed := ctx.scheme + urlStr;
      match p.parse(prefixed)
      case None => None
      case Some(test) => if test.host == "" then p.parse(urlStr) else p.parse(prefixed)
    else
      p.parse(urlStr)
  }

  /**
    A string that already starts with either scheme is parsed as it is,
    whatever the context: prefixing is never applied twice.
   */
  lemma ParsePrefixedStable(p: Primitives, s: string, scheme: string, ctx: MatchContext)
    requires scheme == "http://" || scheme == "https://"
    ensures ParseUrlWithContext(p, scheme + s, ctx) == p.parse(scheme + s)
  {
    ContainsPrefix(scheme, s);
  }

  /**
    For a string without a scheme marker the three outcomes of the prefix
    test: a failing prefixed parse is an error, a host-less one falls back
    to the string itself, and otherwise the prefixed parse is the result.
   */
  lemma ParseUnmarked(p: Primitives, s: string, ctx: MatchContext)
    requires !HasSchemeMarker(s)
    ensures p.parse(ctx.scheme + s).None? ==> ParseUrlWithContext(p, s, ctx).None?
    ensures p.parse(ctx.scheme + s).Some? && p.parse(ctx.scheme + s).value.host == "" ==>
      ParseUrlWithContext(p, s, ctx) == p.parse(s)
    ensures p.parse(ctx.scheme + s).Some? && p.parse(ctx.scheme + s).value.host != "" ==>
      ParseUrlWithContext(p, s, ctx) == p.parse(ctx.scheme + s)
  {
  }

  /**
    Substitutes each capture for its `:name`, in the order the captures are
    given (Go ranges over a map, whose order is unspecified).
   */
  function ReplaceParams(to: string, params: seq<Param>): (r: string)
    ensures ':' !in to ==> r == to
    decreases |params|
  {
    if |params| == 0 then to
    else
      var pat := ":" + params[0].name;
      NoColonUnchanged(to, pat, params[0].value);
      ReplaceParams(ReplaceAll(to, pat, params[0].value), params[1..])
  }

  /** A `:name` placeholder cannot occur in a destination without `:`, so substituting it changes nothing. */
  lemma NoColonUnchanged(to: string, pat: string, rep: string)
    requires |pat| > 0 && pat[0] == ':'
    ensures ':' !in to ==> ReplaceAll(to, pat, rep) == to
  {
    if ':' !in to {
      AbsentHead(to, pat);
    }
    ReplaceAllAbsent(to, pat, rep);
  }

  /** Substituting a list of captures is substituting its parts one after the other. */
  lemma {:induction false} ReplaceParamsAppend(to: string, a: seq<Param>, b: seq<Param>)
    ensures ReplaceParams(to, a + b) == ReplaceParams(ReplaceParams(to, a), b)
    decreases |a|
  {
    if |a| > 0 {
      var to' := ReplaceAll(to, ":" + a[0].name, a[0].value);
      assert (a + b)[0] == a[0];
      assert (a + b)[1..] == a[1..] + b;
      assert ReplaceParams(to, a + b) == ReplaceParams(to', a[1..] + b);
      ReplaceParamsAppend(to', a[1..], b);
    } else {
      assert a + b == b;
    }
  }

  /** A pattern that starts with a character absent from `s` does not occur in it. */
  lemma AbsentHead(s: string, t: string)
    requires |t| > 0 && t[0] !in s
    ensures !Contains(s, t)
  {
  }

  /** A capture that holds its own placeholder (`:id` captured as ":id") changes nothing. */
  lemma {:induction false} ReplaceParamsIdentity(to: string, params: seq<Param>)
    requires forall k :: 0 <= k < |params| ==> params[k].value == ":" + params[k].name
    ensures ReplaceParams(to, params) == to
    decreases |params|
  {
    if |params| > 0 {
      ReplaceFromSelf(to, ":" + params[0].name, 0);
      ReplaceParamsIdentity(to, params[1..]);
    }
  }

  const SplatPlaceholder: string := ":splat"

  /**
    Substitutes the trailing capture for every `:splat`; a destination
    without the placeholder is unchanged.
   */
  function ReplaceSplat(to: string, trailing: string): (r: string)
    ensures !Contains(to, SplatPlaceholder) ==> r == to
  {
    ReplaceAllAbsent(to, SplatPlaceholder, trailing);
    ReplaceAll(to, SplatPlaceholder, trailing)
  }

  /**
    An empty trailing capture removes the placeholders one after the other:
    the text before the first `:splat` is kept and the placeholder dropped,
    and the destination shrinks by six characters per replaced occurrence.
   */
  lemma ReplaceSplatEmpty(to: string)
    ensures Contains(to, SplatPlaceholder) ==>
      var j := Index(to, SplatPlaceholder);
      ReplaceSplat(to, "") == to[..j] + ReplaceFrom(to, SplatPlaceholder, "", j + |SplatPlaceholder|)
    ensures |ReplaceSplat(to, "")| == |to| - 6 * CountFrom(to, SplatPlaceholder, 0)
  {
    if Contains(to, SplatPlaceholder) {
      ReplaceSplatFirst(to, "");
      assert to[..Index(to, SplatPlaceholder)] + "" == to[..Index(to, SplatPlaceholder)];
    }
    ReplaceFromLength(to, SplatPlaceholder, "", 0);
  }

  /**
    The Go replacement loop: the text before the first placeholder is kept,
    the placeholder becomes the capture, and the rest is substituted in turn.
   */
  lemma ReplaceSplatFirst(to: string, trailing: string)
    requires Contains(to, SplatPlaceholder)
    ensures var j := Index(to, SplatPlaceholder);
      ReplaceSplat(to, trailing) ==
        to[..j] + trailing + ReplaceFrom(to, SplatPlaceholder, trailing, j + |SplatPlaceholder|)
  {
    ReplaceFromNext(to, SplatPlaceholder, trailing, 0);
  }

  /** The destination after both substitutions, in the order the matcher applies them. */
  function TargetPath(rule: Rule, m: PathMatch): string {
    ReplaceSplat(ReplaceParams(rule.to, m.params), m.trailing)
  }

  const TrailingSlashDirective: string := "$ENFORCE_TRAILING_SLASH"

  /** Some `|`-separated token of the destination is the trailing-slash directive. */
  predicate EnforcesTrailingSlash(to: string) {
    TrailingSlashDirective in Split(to, '|')
  }

  /**
    The directive is recognised exactly when it occurs in the destination
    with a `|` or an end of the string on each side.
   */
  lemma EnforcesTrailingSlashIff(to: string)
    ensures EnforcesTrailingSlash(to) <==> exists i :: Delimited(to, '|', TrailingSlashDirective, i)
  {
    assert forall k :: 0 <= k < |TrailingSlashDirective| ==> TrailingSlashDirective[k] != '|';
    SplitMember(to, '|', TrailingSlashDirective);
  }

  /**
    The file-request test: splitting the path on `.` gives at least two
    parts and the last one is 2 to 5 characters long.
   */
  predicate IsFileLike(path: string) {
    var parts := Split(path, '.');
    |parts| >= 2 && 2 <= |parts[|parts| - 1]| <= 5
  }

  /** `path` ends in a `.` followed by `n` characters none of which is a `.`. */
  predicate EndsWithExtension(path: string, n: int) {
    0 <= n < |path| && path[|path| - n - 1] == '.' &&
    forall k :: |path| - n <= k < |path| ==> path[k] != '.'
  }

  /** A path is file-like exactly when it ends in an extension of 2 to 5 characters. */
  lemma IsFileLikeIff(path: string)
    ensures IsFileLike(path) <==> exists n :: 2 <= n <= 5 && EndsWithExtension(path, n)
  {
    var parts := Split(path, '.');
    var last := parts[|parts| - 1];
    SplitLastPart(path, '.');
    SplitPieces(path, '.');
    assert path[|path| - |last|..] == last;
    if IsFileLike(path) {
      assert EndsWithExtension(path, |last|);
    }
    if n :| 2 <= n <= 5 && EndsWithExtension(path, n) {
      assert path[|path| - n - 1] in path;
    }
  }

  /** The result of a gate that reports a failure. */
  function Failure(e: MatchError): MatchResult {
    MatchResult(None, None, None, false, false, false, Some(e))
  }

  /** `skipMatch`: the rule applies but must not redirect, and the caller stops. */
  function Skip(to: Url, m: PathMatch): MatchResult {
    MatchResult(Some(to), Some(m), None, true, false, false, None)
  }

  /** A redirect to `target`. */
  function Redirect(target: Url, m: PathMatch, source: Option<Rule>, isHostRedirect: bool): MatchResult {
    MatchResult(Some(target), Some(m), source, false, true, isHostRedirect, None)
  }

  /** The request URL can be matched against: it has a host and a scheme. */
  predicate ValidRequest(req: Url) {
    req.host != "" && req.scheme != ""
  }

  /**
    Matches one rule against the parsed request URL (`req`) and the context
    holding the scheme and the request's original URL.
   */
  function MatchUrlToRule(p: Primitives, rule: Rule, req: Url, ctx: MatchContext): (res: MatchResult)
    ensures !(res.isMatched && res.isNoRedirect)
    ensures res.isMatched ==> res.error.None? && res.resolvedTo.Some? && res.pathMatch.Some?
    ensures res.error.Some? ==>
      !res.isMatched && !res.isNoRedirect && !res.isHostRedirect && res.resolvedTo.None?
    ensures res.isNoRedirect ==>
      res.resolvedTo.Some? && res.pathMatch.Some? && res.source.None? && !res.isHostRedirect
    ensures res.isHostRedirect ==> res.isMatched
    ensures res.error == Some(InvalidRequestUrl) <==> !ValidRequest(req)
    ensures res.source.Some? ==> res.isMatched && res.source.value == rule
    ensures res.source.Some? && res.isHostRedirect ==>
      res.resolvedTo.value.host != "" && res.resolvedTo.value.host != req.host
    ensures res.isMatched && res.source.None? ==>
      && res.resolvedTo == Some(req.(path := req.path + "/"))
      && EnforcesTrailingSlash(rule.to)
      && !IsFileLike(ctx.originalUrl.path)
      && !HasSuffix(ctx.originalUrl.path, "/")
  {
    if req.host == "" || req.scheme == "" then
      Failure(InvalidRequestUrl)
    else
      match ParseUrlWithContext(p, rule.from, ctx)
      case None => Failure(UrlParseError(rule.from))
      case Some(from) =>
        match p.matchPath(Trim(from.path, '/'), Trim(req.path, '/'))
        case None => MatchResult(None, None, None, false, false, false, None)
        case Some(m) =>
          var toPath := TargetPath(rule, m);
          match ParseUrlWithContext(p, toPath, ctx)
          case None => Failure(UrlParseError(toPath))
          case Some(to) => ResolveTarget(rule, req, ctx, from, m, to)
  }

  /**
    The gates after the destination has been resolved to `to`: self-redirect
    suppression, the raw-query gate, the host gates, the trailing-slash
    directive and the default match.
   */
  function ResolveTarget(rule: Rule, req: Url, ctx: MatchContext, from: Url, m: PathMatch, to: Url): (res: MatchResult)
    ensures res.error.None? && res.pathMatch == Some(m)
    ensures res.isMatched != res.isNoRedirect
    ensures res.isNoRedirect ==> res.resolvedTo == Some(to)
    ensures res.source.Some? ==> res.source == Some(rule) && res.resolvedTo == Some(to)
    ensures res.isMatched ==>
      res.resolvedTo == Some(to) || res.resolvedTo == Some(req.(path := req.path + "/"))
    ensures to.path == req.path && (to.host == req.host || to.host == "") ==> res.isNoRedirect
    ensures res.isHostRedirect <==> res.isMatched && to.host != "" && to.host != req.host && from.rawQuery == ""
  {
    var skip := Skip(to, m);
    if to.path == req.path && (to.host == req.host || to.host == "") then skip
    else if from.rawQuery != "" && from.rawQuery == req.rawQuery then Redirect(to, m, Some(rule), false)
    else if from.rawQuery != "" then skip
    else
      var hostToHost := from.host != "" && to.host != "";
      var hostToRelative := from.host != "" && to.host == "";
      var relativeToHost := from.host == "" && to.host != "";
      var isHostRedirect := to.host != "" && to.host != req.host;
      if (hostToHost || hostToRelative) && from.host != req.host then skip
      else if relativeToHost && to.host == req.host then skip
      else if EnforcesTrailingSlash(rule.to) then
        if IsFileLike(ctx.originalUrl.path) then skip
        else if !HasSuffix(ctx.originalUrl.path, "/") then
          Redirect(req.(path := req.path + "/"), m, None, isHostRedirect)
        else skip
      else Redirect(to, m, Some(rule), isHostRedirect)
  }

  /**
    The matcher gets past its parsing and path-matching stages with `from`
    as the parsed rule source, `m` as the path match and `to` as the parsed
    substituted destination.
   */
  predicate Reaches(p: Primitives, rule: Rule, req: Url, ctx: MatchContext, from: Url, m: PathMatch, to: Url) {
    && ValidRequest(req)
    && ParseUrlWithContext(p, rule.from, ctx) == Some(from)
    && p.matchPath(Trim(from.path, '/'), Trim(req.path, '/')) == Some(m)
    && ParseUrlWithContext(p, TargetPath(rule, m), ctx) == Some(to)
  }

  /** The three error gates: each reports its error with both flags clear. */
  lemma MatchErrors(p: Primitives, rule: Rule, req: Url, ctx: MatchContext)
    ensures var res := MatchUrlToRule(p, rule, req, ctx);
      && (!ValidRequest(req) ==> res == Failure(InvalidRequestUrl))
      && (ValidRequest(req) && ParseUrlWithContext(p, rule.from, ctx).None? ==>
            res == Failure(UrlParseError(rule.from)))
      && (forall from, m ::
            ValidRequest(req) && ParseUrlWithContext(p, rule.from, ctx) == Some(from) &&
            p.matchPath(Trim(from.path, '/'), Trim(req.path, '/')) == Some(m) &&
            ParseUrlWithContext(p, TargetPath(rule, m), ctx).None? ==>
              res == Failure(UrlParseError(TargetPath(rule, m))))
  {
  }

  /**
    A path that does not match the rule's pattern gives an empty result with
    no error, so that the caller moves on; and that is the only way to an
    empty result.
   */
  lemma MatchPathMismatch(p: Primitives, rule: Rule, req: Url, ctx: MatchContext)
    ensures var res := MatchUrlToRule(p, rule, req, ctx);
      var noMatch := MatchResult(None, None, None, false, false, false, None);
      var parsed := ParseUrlWithContext(p, rule.from, ctx);
      res == noMatch <==>
        (ValidRequest(req) && parsed.Some? &&
         p.matchPath(Trim(parsed.value.path, '/'), Trim(req.path, '/')).None?)
  {
  }

  /** A destination equal to the request (same path, same or no host) is suppressed. */
  lemma MatchSelfRedirect(p: Primitives, rule: Rule, req: Url, ctx: MatchContext, from: Url, m: PathMatch, to: Url)
    requires Reaches(p, rule, req, ctx, from, m, to)
    requires to.path == req.path && (to.host == req.host || to.host == "")
    ensures MatchUrlToRule(p, rule, req, ctx) == Skip(to, m)
  {
  }

  /**
    A rule with a raw query matches only a request with the identical raw
    query, and then without consulting the host gates or the directive: the
    result does not depend on the original URL or on the hosts agreeing.
    Any other request query, the empty one included, is suppressed.
   */
  lemma MatchQueryGate(p: Primitives, rule: Rule, req: Url, ctx: MatchContext, from: Url, m: PathMatch, to: Url)
    requires Reaches(p, rule, req, ctx, from, m, to)
    requires !(to.path == req.path && (to.host == req.host || to.host == ""))
    requires from.rawQuery != ""
    ensures from.rawQuery == req.rawQuery ==>
      MatchUrlToRule(p, rule, req, ctx) == Redirect(to, m, Some(rule), false)
    ensures from.rawQuery != req.rawQuery ==> MatchUrlToRule(p, rule, req, ctx) == Skip(to, m)
    ensures forall orig :: MatchUrlToRule(p, rule, req, ctx.(originalUrl := orig)) == MatchUrlToRule(p, rule, req, ctx)
  {
  }

  /**
    The host gates, for a rule without a raw query: a rule host other than
    the request's suppresses, a host-less rule whose destination is on the
    request's own host suppresses, and otherwise, without the directive, the
    rule redirects to `to`, as a host redirect exactly when `to` names
    another host.
   */
  lemma MatchHostGates(p: Primitives, rule: Rule, req: Url, ctx: MatchContext, from: Url, m: PathMatch, to: Url)
    requires Reaches(p, rule, req, ctx, from, m, to)
    requires !(to.path == req.path && (to.host == req.host || to.host == ""))
    requires from.rawQuery == ""
    ensures from.host != "" && from.host != req.host ==> MatchUrlToRule(p, rule, req, ctx) == Skip(to, m)
    ensures from.host == "" && to.host == req.host ==> MatchUrlToRule(p, rule, req, ctx) == Skip(to, m)
    ensures ((from.host == "" || from.host == req.host) && !(from.host == "" && to.host == req.host) &&
             !EnforcesTrailingSlash(rule.to)) ==>
        MatchUrlToRule(p, rule, req, ctx) == Redirect(to, m, Some(rule), to.host != "" && to.host != req.host)
  {
  }

  /**
    The trailing-slash directive, once the host gates are passed: a file-like
    original path is suppressed, one without a trailing `/` is redirected to
    the request URL with `/` appended, and one that has it is suppressed. The
    redirect carries no rule, and its host-redirect flag is the one computed
    from `to`, although its target is on the request's own host.
   */
  lemma MatchTrailingSlash(p: Primitives, rule: Rule, req: Url, ctx: MatchContext, from: Url, m: PathMatch, to: Url)
    requires Reaches(p, rule, req, ctx, from, m, to)
    requires !(to.path == req.path && (to.host == req.host || to.host == ""))
    requires from.rawQuery == ""
    requires (from.host == "" || from.host == req.host) && !(from.host == "" && to.host == req.host)
    ensures EnforcesTrailingSlash(rule.to) && IsFileLike(ctx.originalUrl.path) ==>
      MatchUrlToRule(p, rule, req, ctx) == Skip(to, m)
    ensures EnforcesTrailingSlash(rule.to) && !IsFileLike(ctx.originalUrl.path) &&
            !HasSuffix(ctx.originalUrl.path, "/") ==>
      MatchUrlToRule(p, rule, req, ctx) ==
        Redirect(req.(path := req.path + "/"), m, None, to.host != "" && to.host != req.host)
    ensures EnforcesTrailingSlash(rule.to) && HasSuffix(ctx.originalUrl.path, "/") ==>
      MatchUrlToRule(p, rule, req, ctx) == Skip(to, m)
  {
  }
}
