/** The rank of HTTPRoutes by the hostname they match a request with, which the sort of a virtual host does not see. */
module HostnamePrecedence {
  import opened Text
  import opened Domains
  import opened GatewayApi
  import opened EnvoyApi
  import opened Precedence
  import opened RouteMatching
  import opened RouteTranslation
  import opened RouteProperties
  import opened Ties
  import opened Hostnames
  import opened Attachment
  import opened VirtualHosts
  import opened PortBuild
  import opened XdsBuild
  import opened Witnesses
  import opened EndToEnd
  import opened HostAnswers

  /** Among HTTPRoutes that take a request the Gateway API prefers the one with the most specific hostname for its host:
      some hostname of rs covers the host and is more specific than every one of qs that does. */
  predicate HostnameOutranks(rs: seq<string>, qs: seq<string>, host: string) {
    exists r :: r in rs && Covers(r, host) && forall q :: q in qs && Covers(q, host) ==> MoreSpecific(r, q)
  }

  // ----- ranks on the selected virtual host -----

  /** d is what listener and route make a domain: a hostname of the route, or that of the listener. */
  predicate Yields(l: Listener, rs: seq<string>, d: string) {
    var lh := HostnameOf(l);
    if rs == [] then d == (if lh == "" then "*" else lh)
    else if lh == "" then d in rs
    else exists r :: r in rs && IsHostnameSubset(r, lh) && d == MostSpecific(r, lh)
  }

  lemma YieldsExactly(l: Listener, rs: seq<string>, d: string)
    ensures Yields(l, rs, d) <==> d in Intersecting(l, rs)
  {
    PermittedExactly(rs, HostnameOf(l), d);
  }

  /** d is a domain of listener and route for the host, and none is more specific. */
  predicate BestDomain(l: Listener, rs: seq<string>, host: string, d: string) {
    && Yields(l, rs, d) && Covers(d, host)
    && forall r :: r in rs && Covers(r, host) && Yields(l, rs, r) ==> !MoreSpecific(r, d)
  }

  /** The domain of the selected virtual host is the best of every attachment that it is a domain of. */
  lemma SelectedIsBest(c: Cluster, atts: seq<Link>, host: string, d: string, a: Link)
    requires MostSpecificServed(c, atts, host, d) && a in atts && d in DomainsOf(a) && RoutesOfLink(c, a) != multiset{}
    ensures BestDomain(a.listener, a.route.hostnames, host, d)
  {
    YieldsExactly(a.listener, a.route.hostnames, d);
    forall r | r in a.route.hostnames && Covers(r, host) && Yields(a.listener, a.route.hostnames, r)
      ensures !MoreSpecific(r, d)
    {
      YieldsExactly(a.listener, a.route.hostnames, r);
      assert Served(c, atts, r);
    }
  }

  predicate ValidNames(l: Listener, rs: seq<string>) {
    (HostnameOf(l) == "" || ValidHostname(HostnameOf(l))) && forall h :: h in rs ==> ValidHostname(h)
  }

  /** What is narrower than a wildcard under the listener's, for one host, is under the listener's too. */
  lemma NarrowerIsUnder(lh: string, d: string, r: string, host: string)
    requires Wildcard(lh) && Wildcard(d) && HasSuffix(d[1..], lh[1..]) && HasSuffix(host, d[1..]) && Covers(r, host)
    requires MoreSpecific(r, d) && (!Wildcard(r) ==> '*' !in r)
    ensures IsHostnameSubset(r, lh) && MostSpecific(r, lh) == r
  {
    SuffixTransitive(host, d[1..], lh[1..]);
    if Wildcard(r) { SuffixesNest(host, lh[1..], r[1..]); }
  }

  /** No hostname of the route is more specific for the host than its best domain. */
  lemma BestDomainRanks(l: Listener, rs: seq<string>, host: string, d: string, r: string)
    requires ValidNames(l, rs) && BestDomain(l, rs, host, d) && r in rs && Covers(r, host)
    ensures r == d || MoreSpecific(d, r)
  {
    if r != d {
      CoveringDomainsAreRanked(d, r, host);
      if MoreSpecific(r, d) && HostnameOf(l) != "" { NarrowerIsUnder(HostnameOf(l), d, r, host); }
    }
  }

  /** Of two attachments with one best domain for a host, as all have on the selected virtual host, one that lists the
      domain outranks the other by hostname exactly when the other does not list it, and is never outranked: only the
      hostname of a listener brings in routes that do not list it. */
  lemma HostnameRanksExactly(l: Listener, rs: seq<string>, l': Listener, qs: seq<string>, host: string, d: string)
    requires ValidNames(l, rs) && BestDomain(l, rs, host, d) && ValidNames(l', qs) && BestDomain(l', qs, host, d)
    requires d in rs
    ensures HostnameOutranks(rs, qs, host) <==> d !in qs
    ensures !HostnameOutranks(qs, rs, host)
  {
    forall r | r in rs && Covers(r, host) ensures r == d || MoreSpecific(d, r) { BestDomainRanks(l, rs, host, d, r); }
    forall q | q in qs && Covers(q, host) ensures q == d || MoreSpecific(d, q) { BestDomainRanks(l', qs, host, d, q); }
  }

  // ----- what answers -----

  /** The route is that of a pair that serves the request, and no attachment with such a pair outranks it by hostname. */
  ghost predicate TopByHostname(c: Cluster, atts: seq<Link>, d: string, r: Route, re: Regexes, req: Request) {
    exists a, i, j :: ServesOn(c, atts, d, a, i, j, re, req) && Compiled(c, a.route, i, j).route == Some(r)
      && forall b, x, y :: ServesOn(c, atts, d, b, x, y, re, req) ==>
           !HostnameOutranks(b.route.hostnames, a.route.hostnames, req.host)
  }

  ghost predicate AnswersTop(c: Cluster, atts: seq<Link>, vh: VirtualHost, re: Regexes, req: Request) {
    var answer := FirstMatch(vh.routes, re, req);
    answer.Some? ==> TopByHostname(c, atts, vh.domain, answer.value, re, req)
  }

  /** A virtual host is sure to answer as the Gateway API's hostname precedence asks, however its ties are sorted, exactly
      when every pair that may answer has the route of a pair of highest hostname rank. */
  lemma HostnameHonouredExactly(c: Cluster, gateway: string, port: int, atts: seq<Link>, d: string,
                                re: Regexes, req: Request)
    requires req.path != ""
    ensures (forall vh :: HoldsExactly(c, gateway, port, atts, vh) && vh.domain == d ==> AnswersTop(c, atts, vh, re, req))
            <==> forall a, i, j :: MayAnswer(c, atts, d, a, i, j, re, req) ==>
                   Compiled(c, a.route, i, j).route.Some?
                   && TopByHostname(c, atts, d, Compiled(c, a.route, i, j).route.value, re, req)
  {
    if forall a, i, j :: MayAnswer(c, atts, d, a, i, j, re, req) ==>
        Compiled(c, a.route, i, j).route.Some? && TopByHostname(c, atts, d, Compiled(c, a.route, i, j).route.value, re, req)
    {
      forall vh | HoldsExactly(c, gateway, port, atts, vh) && vh.domain == d ensures AnswersTop(c, atts, vh, re, req) {
        AnswerMayAnswer(c, atts, d, vh, re, req);
      }
    } else {
      var a, i, j :| MayAnswer(c, atts, d, a, i, j, re, req) && !(Compiled(c, a.route, i, j).route.Some?
        && TopByHostname(c, atts, d, Compiled(c, a.route, i, j).route.value, re, req));
      var vh := HostThatAnswers(c, gateway, port, atts, d, a, i, j, re, req);
    }
  }

  // ----- an answer that is not preferred -----

  /** Hostname precedence is missed: on a listener with a name, a route on the wildcard above it answers although one on
      the name serves the request too, only because its prefix is longer. */
  lemma HostnamePrecedenceMissed(c: Cluster, n: string, g: string, port: int32, refs: seq<BackendRef>, d: string,
                                 p: string, q: string, re: Regexes, req: Request)
    requires req.host == "a." + d && q != "" && req.path != "" && |p| > |q| && !HasSuffix(p, "/")
    requires ElementPrefix(p, req.path) && ElementPrefix(q, req.path)
    ensures var l := PlainListener("l", HTTP, Some("a." + d), port);
      var gw, a, b := Gateway(n, g, [l]), OnePath(n, g, "a", "*." + d, p, refs), OnePath(n, g, "b", "a." + d, q, refs);
      var index := map["l" := [a, b]];
      && Indexes(c, gw, [a, b], index) && Attaches(c, gw, a, "l") && Attaches(c, gw, b, "l")
      && (RouteBuildable(c, a) && RouteBuildable(c, b) ==> BuildableGateway(c, gw, index))
      && Serves(c, a, 0, 0, re, req) && Serves(c, b, 0, 0, re, req)
      && HostnameOutranks(b.hostnames, a.hostnames, req.host)
      && forall els: seq<EnvoyListener>, el: EnvoyListener, chain: FilterChain ::
           ListenersFor(c, gw, index, els) && el in els && chain in el.filterChains ==>
             Answer(chain.virtualHosts, re, req) == Compiled(c, a, 0, 0).route
  {
    var l := PlainListener("l", HTTP, Some("a." + d), port);
    var gw, a, b := Gateway(n, g, [l]), OnePath(n, g, "a", "*." + d, p, refs), OnePath(n, g, "b", "a." + d, q, refs);
    var index := map["l" := [a, b]];
    NameUnderListener(l, d);
    TwoTaken(c, gw, l, a, b);
    BothServe(c, a, b, d, p, q, refs, re, req);
    forall els: seq<EnvoyListener>, el: EnvoyListener, chain: FilterChain |
      ListenersFor(c, gw, index, els) && el in els && chain in el.filterChains
      ensures Answer(chain.virtualHosts, re, req) == Compiled(c, a, 0, 0).route
    {
      FirstAnswersOnChain(c, gw, l, a, b, "a." + d, els, el, chain, re, req);
    }
  }

  lemma BothServe(c: Cluster, a: HTTPRoute, b: HTTPRoute, d: string, p: string, q: string, refs: seq<BackendRef>,
                  re: Regexes, req: Request)
    requires a.rules == OnePath("", "", "", "", p, refs).rules && b.rules == OnePath("", "", "", "", q, refs).rules
    requires a.hostnames == ["*." + d] && b.hostnames == ["a." + d] && req.host == "a." + d
    requires q != "" && req.path != "" && |p| > |q| && !HasSuffix(p, "/")
    requires ElementPrefix(p, req.path) && ElementPrefix(q, req.path)
    ensures OneRule(a) && OneRule(b) && Serves(c, a, 0, 0, re, req) && Serves(c, b, 0, 0, re, req)
    ensures Precedes(c, a, 0, 0, b, 0, 0) && HostnameOutranks(b.hostnames, a.hostnames, req.host)
    ensures Covers("a." + d, req.host)
  {
    OnePathServes(c, a, p, refs, re, req);
    OnePathServes(c, b, q, refs, re, req);
    LongerPrecedes(c, a, b, p, q, refs);
    NameBeatsWildcard(d);
    assert "a." + d in b.hostnames;
  }

  lemma FirstAnswersOnChain(c: Cluster, gw: Gateway, l: Listener, a: HTTPRoute, b: HTTPRoute, name: string,
                            els: seq<EnvoyListener>, el: EnvoyListener, chain: FilterChain, re: Regexes, req: Request)
    requires TakesAll(gw, l, [a, b]) && ListenersFor(c, gw, map[l.name := [a, b]], els)
    requires el in els && chain in el.filterChains && req.path != ""
    requires DomainsOf(Link(l, a)) == multiset{name} == DomainsOf(Link(l, b)) && Covers(name, req.host)
    requires OneRule(a) && OneRule(b) && Serves(c, a, 0, 0, re, req) && Serves(c, b, 0, 0, re, req)
    requires Precedes(c, a, 0, 0, b, 0, 0)
    ensures Answer(chain.virtualHosts, re, req) == Compiled(c, a, 0, 0).route
  {
    TakesAllChain(c, gw, l, [a, b], els, el, chain);
    TwoLinks(l, a, b);
    var atts := [Link(l, a), Link(l, b)];
    ServerAccepts(c, a, 0, 0, re, req);
    TwoOnOneName(Link(l, a), Link(l, b), name);
    var r := Compiled(c, a, 0, 0).route.value;
    var vh := NameSelected(c, gw.name, el.port, atts, name, chain.virtualHosts, Link(l, a), r, req.host);
    FirstAnswers(c, gw.name, el.port, atts, vh, Link(l, a), Link(l, b), re, req);
  }

  lemma NameUnderListener(l: Listener, d: string)
    requires l.hostname == Some("a." + d)
    ensures HostnameAllows(l, ["*." + d]) && HostnameAllows(l, ["a." + d])
    ensures Intersecting(l, ["*." + d]) == multiset{"a." + d} == Intersecting(l, ["a." + d])
  {
    NameBeatsWildcard(d);
    OneHostname(l, "*." + d);
    OneHostname(l, "a." + d);
  }

  /** The longer of two prefixes goes first. */
  lemma LongerPrecedes(c: Cluster, a: HTTPRoute, b: HTTPRoute, p: string, q: string, refs: seq<BackendRef>)
    requires a.rules == OnePath("", "", "", "", p, refs).rules && b.rules == OnePath("", "", "", "", q, refs).rules
    requires |p| > |q| && !HasSuffix(p, "/")
    ensures IsPair(a, 0, 0) && IsPair(b, 0, 0) && Translatable(MatchAt(a, 0, 0)) && Translatable(MatchAt(b, 0, 0))
    ensures Precedes(c, a, 0, 0, b, 0, 0)
  {
    assert FiltersOf([]) == NO_FILTERS;
    assert MatchAt(a, 0, 0) == HTTPRouteMatch(Some(HTTPPathMatch(None, Some(p))), [], [], None);
    assert MatchAt(b, 0, 0) == HTTPRouteMatch(Some(HTTPPathMatch(None, Some(q))), [], [], None);
  }

  /** Both attachments are served on one name only, and nowhere else. */
  ghost predicate OneNameOnly(atts: seq<Link>, name: string) {
    forall a, d :: a in atts && d in DomainsOf(a) ==> d == name
  }

  lemma TwoOnOneName(a: Link, b: Link, name: string)
    requires DomainsOf(a) == multiset{name} == DomainsOf(b)
    ensures OneNameOnly([a, b], name) && name in DomainsOf(a)
    ensures forall x :: x in [a, b] <==> x == a || x == b
  {
  }

  /** Then the virtual host of the name is selected. */
  lemma NameSelected(c: Cluster, gateway: string, port: int, atts: seq<Link>, name: string, vhs: seq<VirtualHost>,
                     a: Link, r: Route, host: string) returns (vh: VirtualHost)
    requires ServesExactly(c, gateway, port, atts, vhs) && OneNameOnly(atts, name) && Covers(name, host)
    requires a in atts && name in DomainsOf(a) && r in Expanded(c, a.route).routes
    ensures SelectHost(vhs, host) == Some(vh) && vh.domain == name && HoldsExactly(c, gateway, port, atts, vh)
  {
    assert r in RoutesOfLink(c, a);
    assert Served(c, atts, name);
    assert !MoreSpecific(name, name);
    SelectedDomainExactly(c, gateway, port, atts, vhs, host, name);
    vh := SelectHost(vhs, host).value;
  }

  /** Of two routes on one virtual host with a pair each, the one that the sort puts first answers. */
  lemma FirstAnswers(c: Cluster, gateway: string, port: int, atts: seq<Link>, vh: VirtualHost, a: Link, b: Link,
                     re: Regexes, req: Request)
    requires HoldsExactly(c, gateway, port, atts, vh) && req.path != ""
    requires a in atts && vh.domain in DomainsOf(a) && forall x :: x in atts ==> x == a || x == b
    requires OneRule(a.route) && OneRule(b.route) && Serves(c, a.route, 0, 0, re, req)
    requires Translatable(MatchAt(b.route, 0, 0)) && Precedes(c, a.route, 0, 0, b.route, 0, 0)
    ensures FirstMatch(vh.routes, re, req) == Compiled(c, a.route, 0, 0).route
  {
    var r := PairOnHost(c, gateway, port, atts, vh, a, 0, 0, re, req);
    FirstMatchIsMaximal(vh.routes, re, req, r);
    var s := FirstMatch(vh.routes, re, req).value;
    var x, i, j := AnswerOrigin(c, gateway, port, atts, vh, s, re, req);
    PairOfOne(x.route, i, j);
    if x == b { IsBefore(c, a.route, b.route, r, s); }
  }

  lemma PairOfOne(hr: HTTPRoute, i: nat, j: nat)
    requires OneRule(hr) && IsPair(hr, i, j)
    ensures i == 0 && j == 0
  {
  }

  lemma IsBefore(c: Cluster, a: HTTPRoute, b: HTTPRoute, r: Route, s: Route)
    requires IsPair(a, 0, 0) && Translatable(MatchAt(a, 0, 0)) && IsPair(b, 0, 0) && Translatable(MatchAt(b, 0, 0))
    requires Precedes(c, a, 0, 0, b, 0, 0)
    requires Compiled(c, a, 0, 0).route == Some(r) && Compiled(c, b, 0, 0).route == Some(s)
    ensures Before(r.routeMatch, s.routeMatch)
  {
    PrecedesExactly(c, a, 0, 0, b, 0, 0, r, s);
  }
}
