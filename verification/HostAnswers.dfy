/** What a virtual host may answer a request with, and when its answer does not depend on how ties are sorted. */
module HostAnswers {
  import opened Text
  import opened GatewayApi
  import opened EnvoyApi
  import opened Names
  import opened RouteMatching
  import opened Precedence
  import opened RouteTranslation
  import opened RouteProperties
  import opened VirtualHosts
  import opened Isolation

  /** Pair (i, j) of an attachment on the domain serves the request. */
  ghost predicate ServesOn(
    c: Cluster, atts: seq<Link>, d: string, a: Link, i: nat, j: nat, re: Regexes, req: Request)
  {
    a in atts && d in DomainsOf(a) && IsPair(a.route, i, j) && Serves(c, a.route, i, j, re, req)
  }

  /** No pair on the domain that serves the request precedes it. */
  ghost predicate MayAnswer(
    c: Cluster, atts: seq<Link>, d: string, a: Link, i: nat, j: nat, re: Regexes, req: Request)
  {
    && ServesOn(c, atts, d, a, i, j, re, req)
    && forall b, x, y :: ServesOn(c, atts, d, b, x, y, re, req) ==> !Precedes(c, b.route, x, y, a.route, i, j)
  }

  /** The routes of the pairs that may answer are the maximal routes of the virtual host. */
  lemma MayAnswerExactly(c: Cluster, atts: seq<Link>, d: string, routes: seq<Route>, a: Link, i: nat, j: nat,
                         re: Regexes, req: Request)
    requires multiset(routes) == HostRoutes(c, atts, d) && req.path != "" && ServesOn(c, atts, d, a, i, j, re, req)
    ensures Compiled(c, a.route, i, j).route.Some?
    ensures MayAnswer(c, atts, d, a, i, j, re, req) <==> Maximal(routes, re, req, Compiled(c, a.route, i, j).route.value)
  {
    var r := ServedRoute(c, atts, d, routes, a, i, j, re, req);
    if MayAnswer(c, atts, d, a, i, j, re, req) {
      forall x | x in routes && EnvoyApi.Accepts(x.routeMatch, re, req) ensures !Before(x.routeMatch, r.routeMatch) {
        var b, k, l := ServingOrigin(c, atts, d, routes, x, re, req);
        PrecedesExactly(c, b.route, k, l, a.route, i, j, x, r);
      }
    }
    if Maximal(routes, re, req, r) {
      forall b, x, y | ServesOn(c, atts, d, b, x, y, re, req) ensures !Precedes(c, b.route, x, y, a.route, i, j) {
        var s := ServedRoute(c, atts, d, routes, b, x, y, re, req);
        PrecedesExactly(c, b.route, x, y, a.route, i, j, s, r);
      }
    }
  }

  lemma ServedRoute(c: Cluster, atts: seq<Link>, d: string, routes: seq<Route>, a: Link, i: nat, j: nat,
                    re: Regexes, req: Request) returns (r: Route)
    requires multiset(routes) == HostRoutes(c, atts, d) && req.path != "" && ServesOn(c, atts, d, a, i, j, re, req)
    ensures Compiled(c, a.route, i, j).route == Some(r) && r in routes && EnvoyApi.Accepts(r.routeMatch, re, req)
  {
    CompiledServes(c, a.route, i, j, re, req);
    r := Compiled(c, a.route, i, j).route.value;
    PairIncluded(c, a.route, |a.route.rules|, 0, i, j);
    AttachmentContributes(c, atts, a, d, r);
    assert r in multiset(routes);
  }

  lemma ServingOrigin(c: Cluster, atts: seq<Link>, d: string, routes: seq<Route>, r: Route, re: Regexes, req: Request)
    returns (a: Link, i: nat, j: nat)
    requires multiset(routes) == HostRoutes(c, atts, d) && req.path != ""
    requires r in routes && EnvoyApi.Accepts(r.routeMatch, re, req)
    ensures ServesOn(c, atts, d, a, i, j, re, req) && Compiled(c, a.route, i, j).route == Some(r)
  {
    assert r in multiset(routes);
    a := HostRouteOrigin(c, atts, d, r);
    i, j := RouteOrigin(c, a.route, |a.route.rules|, 0, r);
    CompiledServes(c, a.route, i, j, re, req);
  }

  lemma {:induction false} ListOf(m: multiset<Route>) returns (s: seq<Route>)
    ensures multiset(s) == m
    decreases |m|
  {
    if m == multiset{} {
      s := [];
    } else {
      var r :| r in m;
      var rest := ListOf(m - multiset{r});
      s := rest + [r];
    }
  }

  lemma AnswerMayAnswer(c: Cluster, atts: seq<Link>, d: string, vh: VirtualHost, re: Regexes, req: Request)
    requires Sorted(vh.routes) && multiset(vh.routes) == HostRoutes(c, atts, d) && req.path != ""
    ensures var answer := FirstMatch(vh.routes, re, req);
      answer.Some? ==>
        exists a, i, j :: MayAnswer(c, atts, d, a, i, j, re, req) && Compiled(c, a.route, i, j).route == answer
  {
    if FirstMatch(vh.routes, re, req).Some? {
      AnswerIsMaximal(vh.routes, vh.routes, re, req);
      var a, i, j := ServingOrigin(c, atts, d, vh.routes, FirstMatch(vh.routes, re, req).value, re, req);
      MayAnswerExactly(c, atts, d, vh.routes, a, i, j, re, req);
    }
  }

  lemma HostThatAnswers(c: Cluster, gateway: string, port: int, atts: seq<Link>, d: string, a: Link, i: nat, j: nat,
                        re: Regexes, req: Request) returns (vh: VirtualHost)
    requires MayAnswer(c, atts, d, a, i, j, re, req) && req.path != ""
    ensures HoldsExactly(c, gateway, port, atts, vh) && vh.domain == d
    ensures FirstMatch(vh.routes, re, req).Some? && FirstMatch(vh.routes, re, req) == Compiled(c, a.route, i, j).route
  {
    var routes := ListOf(HostRoutes(c, atts, d));
    MayAnswerExactly(c, atts, d, routes, a, i, j, re, req);
    var s := SortThatAnswers(routes, re, req, Compiled(c, a.route, i, j).route.value);
    vh := VirtualHost(VHostName(gateway, port, d), d, s);
  }

  // ----- ties -----

  /** The virtual hosts of the domain that the attachments may yield; they differ in how ties are sorted. */
  ghost predicate Possible(c: Cluster, gateway: string, port: int, atts: seq<Link>, d: string, vh: VirtualHost) {
    HoldsExactly(c, gateway, port, atts, vh) && vh.domain == d
  }

  /** All pairs that may answer have one route. */
  ghost predicate NoTieOnHost(c: Cluster, atts: seq<Link>, d: string, re: Regexes, req: Request) {
    forall a, i, j, b, x, y :: MayAnswer(c, atts, d, a, i, j, re, req) && MayAnswer(c, atts, d, b, x, y, re, req) ==>
      Compiled(c, a.route, i, j).route == Compiled(c, b.route, x, y).route
  }

  /** The answer of a virtual host, which merges the routes of several HTTPRoutes, does not depend on the sort exactly when
      no two pairs with different routes may answer. */
  lemma HostAnswerFixedExactly(c: Cluster, gateway: string, port: int, atts: seq<Link>, d: string,
                               re: Regexes, req: Request)
    requires req.path != ""
    ensures (forall vh, vh' :: Possible(c, gateway, port, atts, d, vh) && Possible(c, gateway, port, atts, d, vh') ==>
               FirstMatch(vh.routes, re, req) == FirstMatch(vh'.routes, re, req))
            <==> NoTieOnHost(c, atts, d, re, req)
  {
    if NoTieOnHost(c, atts, d, re, req) {
      forall vh, vh' | Possible(c, gateway, port, atts, d, vh) && Possible(c, gateway, port, atts, d, vh')
        ensures FirstMatch(vh.routes, re, req) == FirstMatch(vh'.routes, re, req)
      {
        NoTieOneAnswer(c, gateway, port, atts, d, vh, vh', re, req);
      }
    } else {
      var vh, vh' := TieTwoAnswers(c, gateway, port, atts, d, re, req);
    }
  }

  lemma TieTwoAnswers(c: Cluster, gateway: string, port: int, atts: seq<Link>, d: string, re: Regexes, req: Request)
    returns (vh: VirtualHost, vh': VirtualHost)
    requires !NoTieOnHost(c, atts, d, re, req) && req.path != ""
    ensures Possible(c, gateway, port, atts, d, vh) && Possible(c, gateway, port, atts, d, vh')
    ensures FirstMatch(vh.routes, re, req) != FirstMatch(vh'.routes, re, req)
  {
    var a, i, j, b, x, y :| MayAnswer(c, atts, d, a, i, j, re, req) && MayAnswer(c, atts, d, b, x, y, re, req)
      && Compiled(c, a.route, i, j).route != Compiled(c, b.route, x, y).route;
    vh := HostThatAnswers(c, gateway, port, atts, d, a, i, j, re, req);
    vh' := HostThatAnswers(c, gateway, port, atts, d, b, x, y, re, req);
  }

  lemma NoTieOneAnswer(c: Cluster, gateway: string, port: int, atts: seq<Link>, d: string,
                       vh: VirtualHost, vh': VirtualHost, re: Regexes, req: Request)
    requires NoTieOnHost(c, atts, d, re, req) && req.path != ""
    requires Possible(c, gateway, port, atts, d, vh) && Possible(c, gateway, port, atts, d, vh')
    ensures FirstMatch(vh.routes, re, req) == FirstMatch(vh'.routes, re, req)
  {
    AnswerMayAnswer(c, atts, d, vh, re, req);
    AnswerMayAnswer(c, atts, d, vh', re, req);
    assert forall r :: r in vh.routes <==> r in multiset(vh'.routes);
  }

  /** When names tell the HTTPRoutes apart, pairs with one route are one rule and match of one HTTPRoute. */
  lemma OneRouteOnePair(c: Cluster, routes: seq<HTTPRoute>, hr: HTTPRoute, i: nat, j: nat,
                        hr': HTTPRoute, x: nat, y: nat)
    requires NamesApart(routes) && hr in routes && hr' in routes && IsPair(hr, i, j) && IsPair(hr', x, y)
    requires Compiled(c, hr, i, j).route.Some?
    ensures Compiled(c, hr, i, j).route == Compiled(c, hr', x, y).route <==> hr == hr' && i == x && j == y
  {
    if Compiled(c, hr, i, j).route == Compiled(c, hr', x, y).route {
      CompiledName(c, hr, i, j);
      CompiledName(c, hr', x, y);
      RouteNamesCoincide(hr.namespace, hr.name, i, j, hr'.namespace, hr'.name, x, y);
    }
  }

  /** Ties happen: of two HTTPRoutes with one match on one domain either may answer. */
  lemma EitherMayAnswer(c: Cluster, atts: seq<Link>, d: string, a: Link, b: Link, re: Regexes, req: Request)
    requires a in atts && b in atts && (forall x :: x in atts ==> x == a || x == b)
    requires d in DomainsOf(a) && d in DomainsOf(b) && OneRule(a.route) && OneRule(b.route)
    requires a.route.rules == b.route.rules && a.route.namespace == b.route.namespace && a.route.name != b.route.name
    requires Serves(c, a.route, 0, 0, re, req) && Serves(c, b.route, 0, 0, re, req) && req.path != ""
    ensures MayAnswer(c, atts, d, a, 0, 0, re, req) && MayAnswer(c, atts, d, b, 0, 0, re, req)
    ensures !NoTieOnHost(c, atts, d, re, req)
  {
    OneRuleTies(c, a.route, b.route);
    forall x, i, j | ServesOn(c, atts, d, x, i, j, re, req) ensures i == 0 && j == 0 && (x == a || x == b) {
    }
    CompiledServes(c, a.route, 0, 0, re, req);
    CompiledServes(c, b.route, 0, 0, re, req);
    OtherName(c, a.route, b.route);
  }

  lemma OtherName(c: Cluster, a: HTTPRoute, b: HTTPRoute)
    requires OneRule(a) && OneRule(b) && a.namespace == b.namespace && a.name != b.name
    requires Compiled(c, a, 0, 0).route.Some? && Compiled(c, b, 0, 0).route.Some?
    ensures Compiled(c, a, 0, 0).route != Compiled(c, b, 0, 0).route
  {
    var n := a.namespace;
    CompiledName(c, a, 0, 0);
    CompiledName(c, b, 0, 0);
    RouteNamesCoincide(n, a.name, 0, 0, n, b.name, 0, 0);
    assert (n + "-" + a.name)[|n| + 1..] == a.name && (n + "-" + b.name)[|n| + 1..] == b.name;
  }

  /** The route has one rule with one match. */
  predicate OneRule(hr: HTTPRoute) { |hr.rules| == 1 && |MatchesOf(hr.rules[0])| == 1 }

  lemma OneRuleTies(c: Cluster, a: HTTPRoute, b: HTTPRoute)
    requires OneRule(a) && OneRule(b) && a.rules == b.rules && a.namespace == b.namespace
    requires Translatable(MatchAt(a, 0, 0))
    ensures Translatable(MatchAt(b, 0, 0))
    ensures !Precedes(c, a, 0, 0, b, 0, 0) && !Precedes(c, b, 0, 0, a, 0, 0)
    ensures !Precedes(c, a, 0, 0, a, 0, 0) && !Precedes(c, b, 0, 0, b, 0, 0)
  {
  }
}
