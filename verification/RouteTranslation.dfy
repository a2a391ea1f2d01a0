/** Compiling one HTTPRoute into an ordered list of Envoy routes. */
module RouteTranslation {
  import opened Text
  import opened GatewayApi
  import opened EnvoyApi
  import opened Names
  import opened RouteMatching
  import opened Precedence
  import opened Backends

  // ----- filters -----

  function HeaderOptions(f: HTTPHeaderFilter): seq<HeaderValueOption> {
    seq(|f.set_|, i requires 0 <= i < |f.set_| => HeaderValueOption(f.set_[i].name, f.set_[i].value, true)) +
    seq(|f.add|, i requires 0 <= i < |f.add| => HeaderValueOption(f.add[i].name, f.add[i].value, false))
  }

  function OrEmpty(s: Option<string>): string { match s case None => "" case Some(v) => v }

  /** Envoy's redirect codes are numbered 0 to 4 and stand for these statuses; other numbers stand for none. */
  function RedirectStatus(responseCode: int): Option<int> {
    match responseCode
    case 0 => Some(301)
    case 1 => Some(302)
    case 2 => Some(303)
    case 3 => Some(307)
    case 4 => Some(308)
    case _ => None
  }

  const FOUND := 1

  /** The redirect of a filter; its status code is taken for the number of an Envoy code. */
  function TranslateRedirect(r: HTTPRequestRedirectFilter): RedirectAction {
    RedirectAction(
      r.scheme, OrEmpty(r.hostname),
      if r.path.Some? && r.path.value.ReplaceFullPath? then r.path.value.path else None,
      if r.path.Some? && r.path.value.ReplacePrefixMatch? then r.path.value.prefix else None,
      match r.port { case None => 0 case Some(p) => ToUint32(p) },
      match r.statusCode { case None => FOUND case Some(code) => code })
  }

  /** The client gets the status that the filter asks for, 302 unless it says, exactly when the filter does not say. */
  lemma RedirectStatusExactly(r: HTTPRequestRedirectFilter)
    ensures RedirectStatus(TranslateRedirect(r).responseCode) ==
              Some(match r.statusCode { case None => 302 case Some(code) => code })
            <==> r.statusCode.None?
  {
  }

  /** The rewrite of a filter; nothing at all unless it rewrites the path. */
  function TranslateURLRewrite(f: HTTPURLRewriteFilter): Option<RouteAction> {
    match f.path
    case Some(ReplaceFullPath(Some(p))) => Some(RouteAction([], f.hostname, Some(p), ""))
    case Some(ReplacePrefixMatch(Some(p))) => Some(RouteAction([], f.hostname, None, p))
    case _ => None
  }

  /** The filter rewrites the path. */
  predicate RewritesPath(f: HTTPURLRewriteFilter) {
    match f.path
    case Some(ReplaceFullPath(Some(_))) => true
    case Some(ReplacePrefixMatch(Some(_))) => true
    case _ => false
  }

  datatype RuleFilters = RuleFilters(
    redirect: Option<RedirectAction>, rewrite: Option<RouteAction>,
    requestAdd: seq<HeaderValueOption>, requestRemove: seq<string>,
    responseAdd: seq<HeaderValueOption>, responseRemove: seq<string>)

  const NO_FILTERS := RuleFilters(None, None, [], [], [], [])

  function AddFilter(acc: RuleFilters, f: HTTPRouteFilter): RuleFilters {
    match f
    case RequestRedirect(Some(r)) => acc.(redirect := Some(TranslateRedirect(r)))
    case RequestHeaderModifier(Some(h)) =>
      acc.(requestAdd := acc.requestAdd + HeaderOptions(h), requestRemove := acc.requestRemove + h.remove)
    case ResponseHeaderModifier(Some(h)) =>
      acc.(responseAdd := acc.responseAdd + HeaderOptions(h), responseRemove := acc.responseRemove + h.remove)
    case URLRewrite(w) =>
      acc.(rewrite := match w { case None => None case Some(v) => TranslateURLRewrite(v) })
    case _ => acc
  }

  /** The filters of a rule, in order, up to and including its first redirect. */
  function FiltersOf(fs: seq<HTTPRouteFilter>): RuleFilters {
    if fs == [] then NO_FILTERS
    else
      var acc := FiltersOf(fs[..|fs| - 1]);
      if acc.redirect.Some? then acc else AddFilter(acc, fs[|fs| - 1])
  }

  lemma {:induction false} RedirectEndsFilters(fs: seq<HTTPRouteFilter>, i: nat)
    requires i <= |fs| && FiltersOf(fs[..i]).redirect.Some?
    ensures FiltersOf(fs) == FiltersOf(fs[..i])
    decreases |fs| - i
  {
    if i == |fs| {
      assert fs[..i] == fs;
    } else {
      assert fs[..i + 1][..i] == fs[..i];
      RedirectEndsFilters(fs, i + 1);
    }
  }

  predicate Redirects(f: HTTPRouteFilter) { f.RequestRedirect? && f.redirect.Some? }

  /** The first redirect of a rule decides, and cuts off the filters after it. */
  lemma {:induction false} FirstRedirectDecides(fs: seq<HTTPRouteFilter>, k: nat)
    requires k < |fs| && Redirects(fs[k]) && forall j :: 0 <= j < k ==> !Redirects(fs[j])
    ensures FiltersOf(fs) == FiltersOf(fs[..k]).(redirect := Some(TranslateRedirect(fs[k].redirect.value)))
    ensures FiltersOf(fs[..k]).redirect.None?
  {
    NoRedirect(fs[..k]);
    assert fs[..k + 1][..k] == fs[..k];
    RedirectEndsFilters(fs, k + 1);
  }

  lemma {:induction false} NoRedirect(fs: seq<HTTPRouteFilter>)
    requires forall f :: f in fs ==> !Redirects(f)
    ensures FiltersOf(fs).redirect.None?
  {
    if fs != [] {
      assert fs[|fs| - 1] in fs;
      NoRedirect(fs[..|fs| - 1]);
    }
  }

  /** Filter k is the last rewrite of a rule without redirect. */
  predicate IsLastRewrite(fs: seq<HTTPRouteFilter>, k: nat) {
    && (forall f :: f in fs ==> !Redirects(f))
    && k < |fs| && fs[k].URLRewrite? && forall j :: k < j < |fs| ==> !fs[j].URLRewrite?
  }

  /** Without a redirect the last rewrite of a rule decides, even when it rewrites nothing. */
  lemma {:induction false} LastRewriteDecides(fs: seq<HTTPRouteFilter>, k: nat)
    requires IsLastRewrite(fs, k)
    ensures FiltersOf(fs).rewrite == match fs[k].rewrite { case None => None case Some(w) => TranslateURLRewrite(w) }
  {
    NoRedirect(fs);
    NoRedirect(fs[..|fs| - 1]);
    if k < |fs| - 1 { LastRewriteDecides(fs[..|fs| - 1], k); }
  }

  method TranslateFilters(fs: seq<HTTPRouteFilter>) returns (acc: RuleFilters)
    ensures acc == FiltersOf(fs)
  {
    acc := NO_FILTERS;
    for i := 0 to |fs|
      invariant acc == FiltersOf(fs[..i]) && acc.redirect.None?
    {
      assert fs[..i + 1][..i] == fs[..i];
      acc := AddFilter(acc, fs[i]);
      if acc.redirect.Some? {
        RedirectEndsFilters(fs, i + 1);
        return;
      }
    }
    assert fs[..|fs|] == fs;
  }

  // ----- one match of one rule -----

  function MatchesOf(rule: HTTPRouteRule): (ms: seq<HTTPRouteMatch>)
    ensures |ms| >= 1
  {
    if rule.matches == [] then [MATCH_ALL] else rule.matches
  }

  /** With a prefix rewrite, a separated prefix becomes a plain prefix that includes the separator. */
  function SwitchPrefix(p: PathSpecifier, prefixRewrite: string): PathSpecifier {
    if prefixRewrite != "" && p.PathSeparatedPrefix? && p.separated != "" then Prefix(p.separated + "/") else p
  }

  /** What compiling one match yields: a route unless the match is rejected, backends, and the failure if any. */
  datatype Outcome = Outcome(route: Option<Route>, backends: seq<RouteBackend>, failure: Option<Reason>)

  function RouteFor(name: string, m: RouteMatch, action: Action, fs: RuleFilters): Route {
    Route(name, m, action, fs.requestAdd, fs.requestRemove, fs.responseAdd, fs.responseRemove)
  }

  /** The action that forwards, with the rewrite of the rule merged in. */
  function MergeRewrite(action: RouteAction, rewrite: Option<RouteAction>): RouteAction {
    match rewrite
    case None => action
    case Some(w) => RouteAction(action.weightedClusters, w.hostRewrite, w.regexRewrite, w.prefixRewrite)
  }

  function Compiled(c: Cluster, hr: HTTPRoute, i: nat, j: nat): Outcome
    requires i < |hr.rules| && j < |MatchesOf(hr.rules[i])|
  {
    var rule := hr.rules[i];
    var m := MatchesOf(rule)[j];
    var fs := FiltersOf(rule.filters);
    var name := RouteName(hr.namespace, hr.name, i, j);
    if !Translatable(m) then Outcome(None, [], Some(ReasonUnsupportedValue))
    else if fs.redirect.Some? then
      Outcome(Some(RouteFor(name, Translated(m), Redirect(fs.redirect.value), fs)), [], None)
    else match ForwardingOf(c, hr.namespace, rule.backendRefs)
      case Err(e) => Outcome(Some(RouteFor(name, Translated(m), DirectResponse(500), fs)), [], Some(e))
      case Ok(f) =>
        var action := MergeRewrite(f.action, fs.rewrite);
        var p := SwitchPrefix(Translated(m).pathSpecifier, action.prefixRewrite);
        Outcome(Some(RouteFor(name, Translated(m).(pathSpecifier := p), Forward(action), fs)), f.backends, None)
  }

  method BuildRoutesForRule(c: Cluster, hr: HTTPRoute, i: nat, fs: RuleFilters, j: nat) returns (r: Outcome)
    requires i < |hr.rules| && j < |MatchesOf(hr.rules[i])| && fs == FiltersOf(hr.rules[i].filters)
    ensures r == Compiled(c, hr, i, j)
  {
    var routeMatch, condition := TranslateHTTPRouteMatch(MatchesOf(hr.rules[i])[j]);
    if condition.status == ConditionFalse {
      return Outcome(None, [], Some(condition.reason));
    }
    var name := RouteName(hr.namespace, hr.name, i, j);
    if fs.redirect.Some? {
      return Outcome(Some(RouteFor(name, routeMatch.value, Redirect(fs.redirect.value), fs)), [], None);
    }
    var f := BuildHTTPRouteAction(c, hr.namespace, hr.rules[i].backendRefs);
    if f.Err? {
      return Outcome(Some(RouteFor(name, routeMatch.value, DirectResponse(500), fs)), [], Some(f.error));
    }
    var action, m := f.value.action, routeMatch.value;
    if fs.rewrite.Some? {
      var w := fs.rewrite.value;
      action := action.(hostRewrite := w.hostRewrite, regexRewrite := w.regexRewrite, prefixRewrite := w.prefixRewrite);
      if action.prefixRewrite != "" {
        if GetPathSeparatedPrefix(m) != "" {
          m := m.(pathSpecifier := Prefix(GetPathSeparatedPrefix(m) + "/"));
        }
      }
    }
    r := Outcome(Some(RouteFor(name, m, Forward(action), fs)), f.value.backends, None);
  }

  // ----- the whole route -----

  datatype Translation = Translation(routes: seq<Route>, backends: seq<RouteBackend>, condition: Condition)

  function Append(t: Translation, o: Outcome): Translation {
    Translation(
      if o.route.Some? then t.routes + [o.route.value] else t.routes,
      t.backends + o.backends,
      if o.failure.Some? then FailureCondition(o.failure.value) else t.condition)
  }

  /** Everything the rules before i and the first j matches of rule i yield, before sorting. */
  function UpTo(c: Cluster, hr: HTTPRoute, i: nat, j: nat): Translation
    requires i <= |hr.rules| && (j == 0 || (i < |hr.rules| && j <= |MatchesOf(hr.rules[i])|))
    decreases i, j
  {
    if j > 0 then Append(UpTo(c, hr, i, j - 1), Compiled(c, hr, i, j - 1))
    else if i > 0 then UpTo(c, hr, i - 1, |MatchesOf(hr.rules[i - 1])|)
    else Translation([], [], REFS_RESOLVED)
  }

  function Expanded(c: Cluster, hr: HTTPRoute): Translation { UpTo(c, hr, |hr.rules|, 0) }

  method TranslateHTTPRouteToEnvoyRoutes(c: Cluster, hr: HTTPRoute)
    returns (routes: seq<Route>, backends: seq<RouteBackend>, condition: Condition)
    ensures IsSortOf(Expanded(c, hr).routes, routes)
    ensures backends == Expanded(c, hr).backends
    ensures condition == Expanded(c, hr).condition
  {
    routes, backends, condition := [], [], REFS_RESOLVED;
    for i := 0 to |hr.rules|
      invariant Translation(routes, backends, condition) == UpTo(c, hr, i, 0)
    {
      var fs := TranslateFilters(hr.rules[i].filters);
      var ms := MatchesOf(hr.rules[i]);
      for j := 0 to |ms|
        invariant Translation(routes, backends, condition) == UpTo(c, hr, i, j)
      {
        var o := BuildRoutesForRule(c, hr, i, fs, j);
        if o.failure.Some? { condition := FailureCondition(o.failure.value); }
        if o.route.Some? { routes := routes + [o.route.value]; }
        backends := backends + o.backends;
      }
    }
    var slice := new Route[|routes|](k requires 0 <= k < |routes| => routes[k]);
    assert slice[..] == routes;
    SortRoutes(slice);
    routes := slice[..];
  }
}
