/**
  The HTTP handler around the matcher: it parses the request URL, walks the
  rules in order, and either answers with a redirect for the first rule that
  fires or hands the request to the next handler.
 */
module Middleware {
  import opened Types
  import opened GoStrings
  import opened Matcher

  /** The scheme prefix the handler puts in the match context. */
  function SchemeFor(tls: bool): (scheme: string)
    ensures scheme == "https://" <==> tls
    ensures scheme == "http://" || scheme == "https://"
  {
    if tls then "https://" else "http://"
  }

  /** An incoming request: whether it came over TLS, its Host header, and its URL. */
  datatype Request = Request(tls: bool, host: string, url: Url)

  /** The redirect answer: status code, Location target, and whether an HTML body is sent. */
  datatype Response = Response(status: int, location: Url, hasBody: bool)

  /** What the handler does with a request. */
  datatype Outcome =
    | RequestUrlError            // the request URL did not parse; the error is returned
    | PassThrough                // the next handler serves the request
    | Respond(response: Response)

  function Context(r: Request): MatchContext {
    MatchContext(SchemeFor(r.tls), r.url)
  }

  /**
    The request URL the rules are matched against: the Host header and the
    request path joined and parsed in the request's context, with the raw
    query replaced by the request's own.
   */
  function RequestUrl(p: Primitives, r: Request): (u: Option<Url>)
    ensures var parsed := ParseUrlWithContext(p, p.join(r.host, r.url.path), Context(r));
      && (u.None? <==> parsed.None?)
      && (u.Some? ==>
            && u.value.rawQuery == r.url.rawQuery
            && u.value.scheme == parsed.value.scheme
            && u.value.host == parsed.value.host
            && u.value.path == parsed.value.path)
  {
    match ParseUrlWithContext(p, p.join(r.host, r.url.path), Context(r))
    case None => None
    case Some(u) => Some(u.(rawQuery := r.url.rawQuery))
  }

  /** The context's scheme is one that ParseUrlWithContext recognises, so a prefixed string is never prefixed again. */
  lemma SchemeForStable(p: Primitives, tls: bool, s: string, ctx: MatchContext)
    ensures ParseUrlWithContext(p, SchemeFor(tls) + s, ctx) == p.parse(SchemeFor(tls) + s)
  {
    ParsePrefixedStable(p, s, SchemeFor(tls), ctx);
  }

  /**
    The redirect answer for a matched result: the rule's status, the
    resolved target as Location, and an HTML body unless the status is a
    3xx redirect code.
   */
  function HandleRedirectResponse(result: MatchResult, rule: Rule): (resp: Response)
    requires result.resolvedTo.Some?
    ensures resp.status == rule.status && resp.location == result.resolvedTo.value
    ensures resp.hasBody <==> !(300 <= rule.status < 400)
  {
    var body := rule.status < 300 || rule.status >= 400;
    Response(rule.status, result.resolvedTo.value, body)
  }

  /** A result the walk steps over: an error or a non-match that does not stop it. */
  predicate Skipped(res: MatchResult) {
    !res.isNoRedirect && (res.error.Some? || !res.isMatched)
  }

  /** A result that produces a redirect: matched, and to a path other than the request's own. */
  predicate Fires(res: MatchResult, origPath: string) {
    && !res.isNoRedirect && res.error.None? && res.isMatched
    && res.resolvedTo.Some? && res.resolvedTo.value.path != origPath
  }

  /**
    The per-rule evaluation the walk performs: matching each rule against
    the parsed request URL in the handler's context.
   */
  function Evaluator(p: Primitives, req: Url, ctx: MatchContext): Rule -> MatchResult {
    rule => MatchUrlToRule(p, rule, req, ctx)
  }

  /** Every matched result names a target, as every result of the matcher does. */
  ghost predicate Sound(eval: Rule -> MatchResult) {
    forall rule :: eval(rule).isMatched ==> eval(rule).resolvedTo.Some?
  }

  lemma EvaluatorSound(p: Primitives, req: Url, ctx: MatchContext)
    ensures Sound(Evaluator(p, req, ctx))
  {
  }

  /** Every one of the first `k` rules is skipped. */
  predicate SkippedUpTo(eval: Rule -> MatchResult, rules: seq<Rule>, k: int) {
    0 <= k <= |rules| &&
    forall j :: 0 <= j < k ==> Skipped(eval(rules[j]))
  }

  /** Rule `k` is the one that answers the request: all before it are skipped and it fires. */
  predicate FirstFires(eval: Rule -> MatchResult, rules: seq<Rule>, origPath: string, k: int) {
    && SkippedUpTo(eval, rules, k)
    && k < |rules|
    && Fires(eval(rules[k]), origPath)
  }

  /**
    The rule loop over the evaluated rules, one rule at a time, in the order
    of the checks on each result.
   */
  function Walk(eval: Rule -> MatchResult, rules: seq<Rule>, origPath: string): (out: Outcome)
    requires Sound(eval)
    ensures !out.RequestUrlError?
    decreases |rules|
  {
    if |rules| == 0 then PassThrough
    else
      var result := eval(rules[0]);
      if result.isNoRedirect then PassThrough
      else if result.error.Some? then Walk(eval, rules[1..], origPath)
      else if !result.isMatched then Walk(eval, rules[1..], origPath)
      else if origPath == result.resolvedTo.value.path then PassThrough
      else Respond(HandleRedirectResponse(result, rules[0]))
  }

  /** The whole handler as a function of the rules and the request. */
  function Serve(p: Primitives, rules: seq<Rule>, r: Request): Outcome {
    match RequestUrl(p, r)
    case None => RequestUrlError
    case Some(req) =>
      EvaluatorSound(p, req, Context(r));
      Walk(Evaluator(p, req, Context(r)), rules, r.url.path)
  }

  /** Skipped rules at the front of the list make no difference. */
  lemma {:induction false} WalkSkipPrefix(eval: Rule -> MatchResult, rules: seq<Rule>, origPath: string, k: int)
    requires Sound(eval) && SkippedUpTo(eval, rules, k)
    ensures Walk(eval, rules, origPath) == Walk(eval, rules[k..], origPath)
    decreases k
  {
    if k > 0 {
      var rest := rules[1..];
      assert SkippedUpTo(eval, rest, k - 1) by {
        forall j | 0 <= j < k - 1
          ensures Skipped(eval(rest[j]))
        {
          assert rest[j] == rules[j + 1];
        }
      }
      WalkSkipPrefix(eval, rest, origPath, k - 1);
      assert rest[k - 1..] == rules[k..];
    }
  }

  /** When every rule is skipped the request passes through. */
  lemma WalkAllSkipped(eval: Rule -> MatchResult, rules: seq<Rule>, origPath: string)
    requires Sound(eval) && SkippedUpTo(eval, rules, |rules|)
    ensures Walk(eval, rules, origPath) == PassThrough
  {
    WalkSkipPrefix(eval, rules, origPath, |rules|);
  }

  /**
    The first suppressed result (`IsNoRedirect`) ends the walk: the request
    passes through whatever rules follow it.
   */
  lemma WalkStopsOnNoRedirect(eval: Rule -> MatchResult, rules: seq<Rule>, origPath: string, k: int, later: seq<Rule>)
    requires Sound(eval) && SkippedUpTo(eval, rules, k) && k < |rules|
    requires eval(rules[k]).isNoRedirect
    ensures Walk(eval, rules[..k + 1] + later, origPath) == PassThrough
  {
    var rs := rules[..k + 1] + later;
    assert forall j :: 0 <= j <= k ==> rs[j] == rules[j];
    assert SkippedUpTo(eval, rs, k);
    WalkSkipPrefix(eval, rs, origPath, k);
    assert rs[k..][0] == rules[k];
  }

  /** An error-free match that resolves to the request's own path ends the walk without a redirect. */
  lemma WalkStopsOnSamePath(eval: Rule -> MatchResult, rules: seq<Rule>, origPath: string, k: int)
    requires Sound(eval) && SkippedUpTo(eval, rules, k) && k < |rules|
    requires eval(rules[k]).error.None? && eval(rules[k]).isMatched
    requires eval(rules[k]).resolvedTo.value.path == origPath
    ensures Walk(eval, rules, origPath) == PassThrough
  {
    WalkSkipPrefix(eval, rules, origPath, k);
    assert rules[k..][0] == rules[k];
  }

  /** The index of the first rule that is not skipped, or the number of rules. */
  function FirstUnskipped(eval: Rule -> MatchResult, rules: seq<Rule>): (k: int)
    ensures SkippedUpTo(eval, rules, k)
    ensures k < |rules| ==> !Skipped(eval(rules[k]))
    decreases |rules|
  {
    if |rules| == 0 then 0
    else if !Skipped(eval(rules[0])) then 0
    else
      var k := FirstUnskipped(eval, rules[1..]);
      assert forall j :: 0 <= j < k ==> rules[1..][j] == rules[j + 1];
      1 + k
  }

  /**
    The walk answers with a redirect exactly when some rule fires after only
    skipped rules, and the answer is built from that rule and its result.
   */
  lemma WalkRespondIff(eval: Rule -> MatchResult, rules: seq<Rule>, origPath: string)
    requires Sound(eval)
    ensures Walk(eval, rules, origPath).Respond? <==> exists k :: FirstFires(eval, rules, origPath, k)
    ensures forall k :: FirstFires(eval, rules, origPath, k) ==>
      Walk(eval, rules, origPath) == Respond(HandleRedirectResponse(eval(rules[k]), rules[k]))
  {
    var k0 := FirstUnskipped(eval, rules);
    WalkSkipPrefix(eval, rules, origPath, k0);
    forall k | FirstFires(eval, rules, origPath, k)
      ensures k == k0
    {
    }
    if k0 < |rules| {
      assert rules[k0..][0] == rules[k0];
      if Walk(eval, rules, origPath).Respond? {
        assert FirstFires(eval, rules, origPath, k0);
      }
    }
  }

  /** A request URL that does not parse is an error, whatever the rules. */
  lemma ServeRequestUrlError(p: Primitives, rules: seq<Rule>, others: seq<Rule>, r: Request)
    ensures Serve(p, rules, r) == RequestUrlError <==> RequestUrl(p, r).None?
    ensures RequestUrl(p, r).None? ==> Serve(p, others, r) == Serve(p, rules, r)
  {
  }

  /**
    The handler: the rule loop of the middleware, returning as soon as a
    rule's result decides the request.
   */
  method ServeHTTP(p: Primitives, rules: seq<Rule>, r: Request) returns (out: Outcome)
    ensures out == Serve(p, rules, r)
    ensures out == RequestUrlError <==> RequestUrl(p, r).None?
    ensures out.Respond? <==>
      RequestUrl(p, r).Some? &&
      exists k :: FirstFires(Evaluator(p, RequestUrl(p, r).value, Context(r)), rules, r.url.path, k)
  {
    var ctx := MatchContext(SchemeFor(r.tls), r.url);
    var parsed := ParseUrlWithContext(p, p.join(r.host, r.url.path), ctx);
    if parsed.None? {
      return RequestUrlError;
    }
    var req := parsed.value.(rawQuery := r.url.rawQuery);
    ghost var eval := Evaluator(p, req, ctx);
    EvaluatorSound(p, req, ctx);
    WalkRespondIff(eval, rules, r.url.path);
    var i := 0;
    while i < |rules|
      invariant SkippedUpTo(eval, rules, i)
      invariant Walk(eval, rules, r.url.path) == Walk(eval, rules[i..], r.url.path)
      decreases |rules| - i
    {
      var result := MatchUrlToRule(p, rules[i], req, ctx);
      assert result == eval(rules[i]);
      assert rules[i..][0] == rules[i];
      if result.isNoRedirect {
        return PassThrough;
      }
      if result.error.Some? {
        assert rules[i..][1..] == rules[i + 1..];
        i := i + 1;
        continue;
      }
      if !result.isMatched {
        assert rules[i..][1..] == rules[i + 1..];
        i := i + 1;
        continue;
      }
      if r.url.path == result.resolvedTo.value.path {
        return PassThrough;
      }
      return Respond(HandleRedirectResponse(result, rules[i]));
    }
    return PassThrough;
  }
}
