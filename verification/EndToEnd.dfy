/** From the request that Envoy is sent to the HTTPRoutes of the Gateway: which host, which virtual host, which route. */
module EndToEnd {
  import opened Text
  import opened Domains
  import opened GatewayApi
  import opened EnvoyApi
  import opened Precedence
  import opened RouteMatching
  import opened RouteTranslation
  import opened RouteProperties
  import opened Ties
  import opened Hostnames
  import opened Attachment
  import opened ListenerConflicts
  import opened VirtualHosts
  import opened PortBuild
  import opened XdsBuild
  import opened XdsProperties
  import opened Translator
  import opened Witnesses

  // ----- one virtual host -----

  /** No rule and match of any attachment to the domain serves the request. */
  ghost predicate NobodyServes(c: Cluster, atts: seq<Link>, domain: string, re: Regexes, req: Request) {
    forall a :: a in atts && domain in DomainsOf(a) ==> !LinkServes(c, a, re, req)
  }

  /** Some rule and match of the attached route serves the request. */
  ghost predicate LinkServes(c: Cluster, a: Link, re: Regexes, req: Request) {
    exists i, j :: IsPair(a.route, i, j) && Serves(c, a.route, i, j, re, req)
  }

  /** A virtual host leaves a request unanswered exactly when nobody attached to its domain serves it. */
  lemma UnansweredExactly(c: Cluster, gateway: string, port: int, atts: seq<Link>, vh: VirtualHost,
                          re: Regexes, req: Request)
    requires HoldsExactly(c, gateway, port, atts, vh) && req.path != ""
    ensures FirstMatch(vh.routes, re, req).None? <==> NobodyServes(c, atts, vh.domain, re, req)
  {
    forall a | a in atts && vh.domain in DomainsOf(a) && LinkServes(c, a, re, req)
      ensures FirstMatch(vh.routes, re, req).Some?
    {
      var i, j :| IsPair(a.route, i, j) && Serves(c, a.route, i, j, re, req);
      var r := PairOnHost(c, gateway, port, atts, vh, a, i, j, re, req);
    }
    if FirstMatch(vh.routes, re, req).Some? {
      var a, i, j := AnswerOrigin(c, gateway, port, atts, vh, FirstMatch(vh.routes, re, req).value, re, req);
    }
  }

  /** The route of a pair that serves a request is on the virtual host and accepts the request. */
  lemma PairOnHost(c: Cluster, gateway: string, port: int, atts: seq<Link>, vh: VirtualHost, a: Link, i: nat, j: nat,
                   re: Regexes, req: Request) returns (r: Route)
    requires HoldsExactly(c, gateway, port, atts, vh) && req.path != ""
    requires a in atts && vh.domain in DomainsOf(a) && IsPair(a.route, i, j) && Serves(c, a.route, i, j, re, req)
    ensures Compiled(c, a.route, i, j).route == Some(r) && r in vh.routes && EnvoyApi.Accepts(r.routeMatch, re, req)
  {
    CompiledServes(c, a.route, i, j, re, req);
    r := Compiled(c, a.route, i, j).route.value;
    PairIncluded(c, a.route, |a.route.rules|, 0, i, j);
    AttachmentContributes(c, atts, a, vh.domain, r);
    assert r in multiset(vh.routes);
  }

  /** A route of the virtual host that accepts a request was compiled from a pair that serves it. */
  lemma AnswerOrigin(c: Cluster, gateway: string, port: int, atts: seq<Link>, vh: VirtualHost, r: Route,
                     re: Regexes, req: Request) returns (a: Link, i: nat, j: nat)
    requires HoldsExactly(c, gateway, port, atts, vh) && req.path != ""
    requires r in vh.routes && EnvoyApi.Accepts(r.routeMatch, re, req)
    ensures a in atts && vh.domain in DomainsOf(a) && r in Expanded(c, a.route).routes
    ensures IsPair(a.route, i, j) && Compiled(c, a.route, i, j).route == Some(r) && Serves(c, a.route, i, j, re, req)
  {
    assert r in multiset(vh.routes);
    a := HostRouteOrigin(c, atts, vh.domain, r);
    i, j := RouteOrigin(c, a.route, |a.route.rules|, 0, r);
    CompiledServes(c, a.route, i, j, re, req);
  }

  /** No pair of an attachment to the domain that serves the request ranks above pair (i, j) of hr under the Gateway API,
      up to inversions. */
  ghost predicate BestOnHost(c: Cluster, atts: seq<Link>, domain: string, hr: HTTPRoute, i: nat, j: nat,
                             re: Regexes, req: Request)
    requires IsPair(hr, i, j)
  {
    forall a, x, y ::
      a in atts && domain in DomainsOf(a) && IsPair(a.route, x, y) && Serves(c, a.route, x, y, re, req) ==>
        (Outranks(MatchAt(a.route, x, y), MatchAt(hr, i, j)) ==> Inverts(c, a.route, x, y, hr, i, j))
  }

  /** The virtual host answers with such a pair, whichever HTTPRoutes are attached to its domain. */
  lemma HostAnswersBest(c: Cluster, gateway: string, port: int, atts: seq<Link>, vh: VirtualHost,
                        hr: HTTPRoute, i: nat, j: nat, re: Regexes, req: Request)
    requires HoldsExactly(c, gateway, port, atts, vh) && req.path != ""
    requires IsPair(hr, i, j) && Serves(c, hr, i, j, re, req)
    requires FirstMatch(vh.routes, re, req).Some? && Compiled(c, hr, i, j).route == FirstMatch(vh.routes, re, req)
    ensures BestOnHost(c, atts, vh.domain, hr, i, j, re, req)
  {
    forall a, x, y | a in atts && vh.domain in DomainsOf(a) && IsPair(a.route, x, y) && Serves(c, a.route, x, y, re, req)
      && Outranks(MatchAt(a.route, x, y), MatchAt(hr, i, j))
      ensures Inverts(c, a.route, x, y, hr, i, j)
    {
      var r := PairOnHost(c, gateway, port, atts, vh, a, x, y, re, req);
      FirstMatchIsMaximal(vh.routes, re, req, r);
      OutranksIsBefore(c, a.route, x, y, hr, i, j, re, req);
    }
  }

  // ----- one filter chain -----

  /** No served domain that covers the host is more specific. */
  ghost predicate MostSpecificServed(c: Cluster, atts: seq<Link>, host: string, domain: string) {
    && Served(c, atts, domain) && Covers(domain, host)
    && forall e :: Served(c, atts, e) && Covers(e, host) ==> !MoreSpecific(e, domain)
  }

  /** A domain more specific than all of the attachment's own covers the host, and nobody attached to it serves the
      request: Envoy looks no further. */
  ghost predicate Shadowed(c: Cluster, atts: seq<Link>, a: Link, re: Regexes, req: Request) {
    exists d :: MostSpecificServed(c, atts, req.host, d)
      && (forall e :: e in DomainsOf(a) && Covers(e, req.host) ==> MoreSpecific(d, e))
      && NobodyServes(c, atts, d, re, req)
  }

  /** The domain of the selected virtual host is the most specific one served. */
  lemma SelectedDomainExactly(c: Cluster, gateway: string, port: int, atts: seq<Link>, vhs: seq<VirtualHost>,
                              host: string, d: string)
    requires ServesExactly(c, gateway, port, atts, vhs)
    ensures MostSpecificServed(c, atts, host, d) <==> SelectHost(vhs, host).Some? && SelectHost(vhs, host).value.domain == d
  {
    var chosen := SelectHost(vhs, host);
    if chosen.Some? {
      assert Served(c, atts, chosen.value.domain);
      forall e | Served(c, atts, e) && Covers(e, host) ensures !MoreSpecific(e, chosen.value.domain) {
        var vh :| vh in vhs && vh.domain == e;
      }
    }
    if MostSpecificServed(c, atts, host, d) {
      var vh :| vh in vhs && vh.domain == d;
      if chosen.value.domain != d { CoveringDomainsAreRanked(chosen.value.domain, d, host); }
    }
  }

  /** A request that a pair of an attachment serves, on a host that a domain of the attachment covers, stays unanswered
      exactly when the attachment is shadowed. */
  lemma LostExactly(c: Cluster, gateway: string, port: int, atts: seq<Link>, vhs: seq<VirtualHost>, a: Link,
                    i: nat, j: nat, re: Regexes, req: Request)
    requires ServesExactly(c, gateway, port, atts, vhs) && a in atts && req.path != ""
    requires IsPair(a.route, i, j) && Serves(c, a.route, i, j, re, req)
    requires DomainsCover(a.listener, a.route.hostnames, req.host)
    ensures Answer(vhs, re, req).None? <==> Shadowed(c, atts, a, re, req)
  {
    ServerAccepts(c, a.route, i, j, re, req);
    assert Compiled(c, a.route, i, j).route.value in RoutesOfLink(c, a);
    var vh := SomeHostSelected(c, gateway, port, atts, vhs, a, req.host);
    UnansweredExactly(c, gateway, port, atts, vh, re, req);
    assert LinkServes(c, a, re, req);
    if Answer(vhs, re, req).None? { SelectedBeatsOwn(c, atts, a, vh.domain, re, req); }
    if Shadowed(c, atts, a, re, req) {
      var d :| MostSpecificServed(c, atts, req.host, d) && NobodyServes(c, atts, d, re, req);
      SelectedDomainExactly(c, gateway, port, atts, vhs, req.host, d);
    }
  }

  /** A host that a domain of an attachment with routes covers has a virtual host, that of the most specific domain. */
  lemma SomeHostSelected(c: Cluster, gateway: string, port: int, atts: seq<Link>, vhs: seq<VirtualHost>, a: Link,
                         host: string) returns (vh: VirtualHost)
    requires ServesExactly(c, gateway, port, atts, vhs) && a in atts && RoutesOfLink(c, a) != multiset{}
    requires DomainsCover(a.listener, a.route.hostnames, host)
    ensures SelectHost(vhs, host) == Some(vh) && MostSpecificServed(c, atts, host, vh.domain)
    ensures HoldsExactly(c, gateway, port, atts, vh) && forall e :: e in DomainsOf(a) ==> Served(c, atts, e)
  {
    var own :| own in DomainsOf(a) && Covers(own, host);
    assert Served(c, atts, own);
    var vh0 :| vh0 in vhs && vh0.domain == own;
    vh := SelectHost(vhs, host).value;
    SelectedDomainExactly(c, gateway, port, atts, vhs, host, vh.domain);
  }

  /** When nobody on the selected domain serves the request, that domain is none of the attachment's, so it is more
      specific than they are. */
  lemma SelectedBeatsOwn(c: Cluster, atts: seq<Link>, a: Link, d: string, re: Regexes, req: Request)
    requires MostSpecificServed(c, atts, req.host, d) && NobodyServes(c, atts, d, re, req)
    requires a in atts && LinkServes(c, a, re, req) && forall e :: e in DomainsOf(a) ==> Served(c, atts, e)
    ensures Shadowed(c, atts, a, re, req)
  {
    forall e | e in DomainsOf(a) && Covers(e, req.host) ensures MoreSpecific(d, e) {
      CoveringDomainsAreRanked(d, e, req.host);
    }
  }

  // ----- the whole Gateway -----

  /** Hostnames as the API's validation admits them. */
  predicate ValidHostnames(gw: Gateway, routes: seq<HTTPRoute>) {
    && (forall l :: l in gw.listeners ==> HostnameOf(l) == "" || ValidHostname(HostnameOf(l)))
    && (forall hr, h :: hr in routes && h in hr.hostnames ==> ValidHostname(h))
  }

  /** Whatever Envoy answers a request with in the filter chain of a listener was compiled from a rule and match that
      serves the request, of an HTTPRoute that attaches to this listener or to one before it on the port. Both cover the
      host of the request, unless the listener's own name was let in by the wildcard on it. No rule and match of any
      HTTPRoute on the selected virtual host that serves the request ranks higher, up to inversions. */
  lemma AnsweredByAttachedPair(c: Cluster, gw: Gateway, routes: seq<HTTPRoute>, index: Index, els: seq<EnvoyListener>,
                               el: EnvoyListener, chain: FilterChain, re: Regexes, req: Request)
    returns (k: nat, l: Listener, hr: HTTPRoute, i: nat, j: nat)
    requires Indexes(c, gw, routes, index) && ListenersFor(c, gw, index, els) && ValidHostnames(gw, routes)
    requires el in els && chain in el.filterChains
    requires req.path != "" && Answer(chain.virtualHosts, re, req).Some?
    ensures l in gw.listeners && (l.protocol == HTTP || l.protocol == HTTPS) && l.port == el.port
    ensures hr in routes && Attaches(c, gw, hr, l.name)
    ensures var ls := OnPort(gw.listeners, l.port);
      IsChainOf(c, gw, el.port, ls, index, chain, k) && l in ls[..k + 1]
    ensures IsPair(hr, i, j) && Compiled(c, hr, i, j).route == Answer(chain.virtualHosts, re, req)
    ensures Serves(c, hr, i, j, re, req)
    ensures (ListenerCovers(l, req.host) && RouteCovers(hr.hostnames, req.host))
            || (req.host == HostnameOf(l) && ParentDomainLeak(l, hr.hostnames))
    ensures BestOnHost(c, AttachmentsUpTo(OnPort(gw.listeners, l.port), index, k + 1, 0),
                       SelectHost(chain.virtualHosts, req.host).value.domain, hr, i, j, re, req)
  {
    var vh := SelectHost(chain.virtualHosts, req.host).value;
    var r := FirstMatch(vh.routes, re, req).value;
    k, l, hr := EmittedRouteIsAttached(c, gw, routes, index, els, el, chain, vh, r);
    i, j := RouteOrigin(c, hr, |hr.rules|, 0, r);
    CompiledServes(c, hr, i, j, re, req);
    assert DomainsCover(l, hr.hostnames, req.host);
    IntersectionMeaning(l, hr.hostnames, req.host);
    var atts := AttachmentsUpTo(OnPort(gw.listeners, l.port), index, k + 1, 0);
    HostAnswersBest(c, gw.name, el.port, atts, vh, hr, i, j, re, req);
  }

  /** Conversely, take a request that a rule and match of an HTTPRoute serves, on a host that the domains of its attachment
      to a listener cover. The listener's own filter chain leaves it unanswered exactly when the attachment is shadowed.
      If the selected domain is the attachment's, the answer is not put behind what was compiled from the pair, and the
      pair does not rank above what answers, up to inversions. */
  lemma AttachedPairIsAnswered(c: Cluster, gw: Gateway, routes: seq<HTTPRoute>, index: Index, els: seq<EnvoyListener>,
                               l: Listener, hr: HTTPRoute, i: nat, j: nat, re: Regexes, req: Request)
    returns (el: EnvoyListener, chain: FilterChain, k: nat)
    requires Indexes(c, gw, routes, index) && ListenersFor(c, gw, index, els) && NamesDetermine(gw)
    requires l in gw.listeners && Routed(l) && hr in routes && Attaches(c, gw, hr, l.name)
    requires IsPair(hr, i, j) && req.path != "" && Serves(c, hr, i, j, re, req)
    requires DomainsCover(l, hr.hostnames, req.host)
    ensures el in els && el.port == l.port && chain in el.filterChains
    ensures var ls := OnPort(gw.listeners, l.port);
      && IsChainOf(c, gw, el.port, ls, index, chain, k) && ls[k] == l
      && (Answer(chain.virtualHosts, re, req).None? <==>
            Shadowed(c, AttachmentsUpTo(ls, index, k + 1, 0), Link(l, hr), re, req))
    ensures Compiled(c, hr, i, j).route.Some?
    ensures var vh := SelectHost(chain.virtualHosts, req.host);
      vh.Some? && vh.value.domain in Intersecting(l, hr.hostnames) ==>
      NoLower(vh.value.routes, Compiled(c, hr, i, j).route.value, re, req)
      && NotOutranked(c, gw, routes, OnPort(gw.listeners, l.port)[..k + 1], vh.value.domain,
                      Answer(chain.virtualHosts, re, req), hr, i, j, re, req)
  {
    el, chain, k := ListenerChain(c, gw, routes, index, els, l);
    LinkedPairIsAnswered(c, gw, routes, index, l, chain, k, hr, i, j, re, req);
  }

  /** The same of the chain of a listener, for an attachment it serves. */
  lemma LinkedPairIsAnswered(c: Cluster, gw: Gateway, routes: seq<HTTPRoute>, index: Index, l: Listener,
                             chain: FilterChain, k: nat, hr: HTTPRoute, i: nat, j: nat, re: Regexes, req: Request)
    requires Indexes(c, gw, routes, index)
    requires var ls := OnPort(gw.listeners, l.port);
      IsChainOf(c, gw, l.port, ls, index, chain, k) && Link(l, hr) in AttachmentsUpTo(ls, index, k + 1, 0)
    requires IsPair(hr, i, j) && req.path != "" && Serves(c, hr, i, j, re, req)
    requires DomainsCover(l, hr.hostnames, req.host)
    ensures Answer(chain.virtualHosts, re, req).None? <==>
            Shadowed(c, AttachmentsUpTo(OnPort(gw.listeners, l.port), index, k + 1, 0), Link(l, hr), re, req)
    ensures Compiled(c, hr, i, j).route.Some?
    ensures var vh := SelectHost(chain.virtualHosts, req.host);
      vh.Some? && vh.value.domain in Intersecting(l, hr.hostnames) ==>
      NoLower(vh.value.routes, Compiled(c, hr, i, j).route.value, re, req)
      && NotOutranked(c, gw, routes, OnPort(gw.listeners, l.port)[..k + 1], vh.value.domain,
                      Answer(chain.virtualHosts, re, req), hr, i, j, re, req)
  {
    var a, atts := Link(l, hr), AttachmentsUpTo(OnPort(gw.listeners, l.port), index, k + 1, 0);
    LostExactly(c, gw.name, l.port, atts, chain.virtualHosts, a, i, j, re, req);
    CompiledServes(c, hr, i, j, re, req);
    var vh := SelectHost(chain.virtualHosts, req.host);
    if vh.Some? && vh.value.domain in DomainsOf(a) {
      HostAnswersPair(c, gw, routes, index, l.port, k + 1, vh.value, a, i, j, re, req);
    }
  }

  /** A virtual host answers what a pair of an attachment to its domain serves, and not with a lower pair. */
  lemma HostAnswersPair(c: Cluster, gw: Gateway, routes: seq<HTTPRoute>, index: Index, port: int32, n: nat,
                        vh: VirtualHost, a: Link, i: nat, j: nat, re: Regexes, req: Request)
    requires Indexes(c, gw, routes, index) && n <= |OnPort(gw.listeners, port)| && req.path != ""
    requires var atts := AttachmentsUpTo(OnPort(gw.listeners, port), index, n, 0);
      HoldsExactly(c, gw.name, port, atts, vh) && a in atts && vh.domain in DomainsOf(a)
    requires IsPair(a.route, i, j) && Serves(c, a.route, i, j, re, req)
    ensures Compiled(c, a.route, i, j).route.Some?
    ensures NoLower(vh.routes, Compiled(c, a.route, i, j).route.value, re, req)
    ensures NotOutranked(c, gw, routes, OnPort(gw.listeners, port)[..n], vh.domain, FirstMatch(vh.routes, re, req),
                         a.route, i, j, re, req)
  {
    var atts := AttachmentsUpTo(OnPort(gw.listeners, port), index, n, 0);
    var r := PairOnHost(c, gw.name, port, atts, vh, a, i, j, re, req);
    FirstMatchIsMaximal(vh.routes, re, req, r);
    var b, x, y := AnswerOrigin(c, gw.name, port, atts, vh, FirstMatch(vh.routes, re, req).value, re, req);
    HostAnswersBest(c, gw.name, port, atts, vh, b.route, x, y, re, req);
    LinkIsAttached(c, gw, routes, index, port, n, vh.domain, b);
  }

  lemma LinkIsAttached(c: Cluster, gw: Gateway, routes: seq<HTTPRoute>, index: Index, port: int32, n: nat,
                       domain: string, b: Link)
    requires Indexes(c, gw, routes, index) && n <= |OnPort(gw.listeners, port)| && domain in DomainsOf(b)
    requires b in AttachmentsUpTo(OnPort(gw.listeners, port), index, n, 0)
    ensures AttachedTo(c, gw, routes, OnPort(gw.listeners, port)[..n], domain, b)
  {
    PrefixIsLinked(gw, index, port, n, b);
    LinkedExactly(c, gw, routes, index, b);
  }

  /** An HTTPRoute of the lister, attached to one of the listeners on the domain. */
  predicate AttachedTo(c: Cluster, gw: Gateway, routes: seq<HTTPRoute>, ls: seq<Listener>, domain: string, a: Link) {
    && a.listener in ls && Routed(a.listener) && a.route in routes && Attaches(c, gw, a.route, a.listener.name)
    && domain in DomainsOf(a)
  }

  /** The answer was compiled from a pair that serves the request, of an HTTPRoute attached to one of the listeners on the
      domain, and pair (i, j) of hr does not outrank that pair, up to inversions. */
  ghost predicate NotOutranked(
    c: Cluster, gw: Gateway, routes: seq<HTTPRoute>, ls: seq<Listener>, domain: string,
    answer: Option<Route>, hr: HTTPRoute, i: nat, j: nat, re: Regexes, req: Request)
    requires IsPair(hr, i, j)
  {
    exists b, x, y ::
      && AttachedTo(c, gw, routes, ls, domain, b)
      && IsPair(b.route, x, y) && Serves(c, b.route, x, y, re, req) && Compiled(c, b.route, x, y).route == answer
      && (Outranks(MatchAt(hr, i, j), MatchAt(b.route, x, y)) ==> Inverts(c, hr, i, j, b.route, x, y))
  }

  /** The routes answer the request, and with no route that r comes before. */
  ghost predicate NoLower(routes: seq<Route>, r: Route, re: Regexes, req: Request) {
    var first := FirstMatch(routes, re, req);
    first.Some? && !Before(r.routeMatch, first.value.routeMatch)
  }

  /** A host that listener and route both cover is covered by a domain of the attachment, unless a broader wildcard was
      dropped. */
  lemma CoveredIsServed(l: Listener, hostnames: seq<string>, host: string)
    requires HostnameOf(l) == "" || ValidHostname(HostnameOf(l))
    requires forall h :: h in hostnames ==> ValidHostname(h)
    requires ListenerCovers(l, host) && RouteCovers(hostnames, host) && !BroaderDropped(l, hostnames)
    ensures DomainsCover(l, hostnames, host)
  {
    IntersectionMeaning(l, hostnames, host);
    var lh := HostnameOf(l);
    if lh in hostnames && Wildcard(lh) { assert !StrictlyBroader(lh, lh); }
  }

  /** One rule with one prefix, attached to a Gateway as a whole. */
  function OnePath(namespace: string, gateway: string, name: string, hostname: string, prefix: string,
                   refs: seq<BackendRef>): HTTPRoute {
    HTTPRoute(namespace, name, [ParentNamed(gateway)], [hostname], [
                HTTPRouteRule([HTTPRouteMatch(Some(HTTPPathMatch(None, Some(prefix))), [], [], None)], [], refs)])
  }

  /** Shadowing happens: in every build of a Gateway with one listener, a route on a name hides another on the wildcard
      above it from all paths it does not take. */
  lemma ShadowingHappens(c: Cluster, n: string, g: string, port: int32, refs: seq<BackendRef>, d: string,
                         p: string, q: string, re: Regexes, req: Request)
    requires req.host == "a." + d && p != "" && q != "" && req.path != ""
    requires ElementPrefix(p, req.path) && !ElementPrefix(q, req.path)
    ensures var l := PlainListener("l", HTTP, None, port);
      var gw, a, b := Gateway(n, g, [l]), OnePath(n, g, "a", "*." + d, p, refs), OnePath(n, g, "b", "a." + d, q, refs);
      var index := map["l" := [a, b]];
      && Indexes(c, gw, [a, b], index) && Attaches(c, gw, a, "l") && Attaches(c, gw, b, "l")
      && (RouteBuildable(c, a) && RouteBuildable(c, b) ==> BuildableGateway(c, gw, index))
      && Serves(c, a, 0, 0, re, req) && DomainsCover(l, a.hostnames, req.host)
      && forall els: seq<EnvoyListener>, el: EnvoyListener, chain: FilterChain ::
           ListenersFor(c, gw, index, els) && el in els && chain in el.filterChains ==>
             Answer(chain.virtualHosts, re, req).None?
  {
    var l := PlainListener("l", HTTP, None, port);
    var gw, a, b := Gateway(n, g, [l]), OnePath(n, g, "a", "*." + d, p, refs), OnePath(n, g, "b", "a." + d, q, refs);
    var index := map["l" := [a, b]];
    TwoTaken(c, gw, l, a, b);
    WildcardShadowed(c, l, a, b, n, g, refs, d, p, q, re, req);
    forall els: seq<EnvoyListener>, el: EnvoyListener, chain: FilterChain |
      ListenersFor(c, gw, index, els) && el in els && chain in el.filterChains
      ensures Answer(chain.virtualHosts, re, req).None?
    {
      TakesAllChain(c, gw, l, [a, b], els, el, chain);
      TwoLinks(l, a, b);
      LostExactly(c, g, el.port, [Link(l, a), Link(l, b)], chain.virtualHosts, Link(l, a), 0, 0, re, req);
    }
  }

  lemma WildcardShadowed(c: Cluster, l: Listener, a: HTTPRoute, b: HTTPRoute, n: string, g: string,
                         refs: seq<BackendRef>, d: string, p: string, q: string, re: Regexes, req: Request)
    requires HostnameOf(l) == "" && req.host == "a." + d && p != "" && q != "" && req.path != ""
    requires ElementPrefix(p, req.path) && !ElementPrefix(q, req.path)
    requires a == OnePath(n, g, "a", "*." + d, p, refs) && b == OnePath(n, g, "b", "a." + d, q, refs)
    ensures Serves(c, a, 0, 0, re, req) && DomainsCover(l, a.hostnames, req.host)
    ensures Shadowed(c, [Link(l, a), Link(l, b)], Link(l, a), re, req)
  {
    OnePathServes(c, a, p, refs, re, req);
    OnePathServes(c, b, q, refs, re, req);
    NameBeatsWildcard(d);
    OneDomain(l, a, "*." + d);
    OneDomain(l, b, "a." + d);
    assert "*." + d in DomainsOf(Link(l, a));
    NameShadows(c, Link(l, a), Link(l, b), "a." + d, re, req);
  }

  /** An attachment to a name of its own shadows one that is not attached to the name, from requests it does not serve. */
  lemma NameShadows(c: Cluster, a: Link, b: Link, name: string, re: Regexes, req: Request)
    requires req.host == name && Covers(name, name) && forall e :: !MoreSpecific(e, name)
    requires name in DomainsOf(b) && CompilesToSomething(c, b.route)
    requires forall e :: e in DomainsOf(a) ==> MoreSpecific(name, e)
    requires !LinkServes(c, b, re, req)
    ensures Shadowed(c, [a, b], a, re, req)
  {
    var atts := [a, b];
    NameServed(c, atts, b, name);
    assert name !in DomainsOf(a) && forall x :: x in atts ==> x == a || x == b;
    assert NobodyServes(c, atts, name, re, req);
  }

  lemma NameServed(c: Cluster, atts: seq<Link>, b: Link, name: string)
    requires b in atts && name in DomainsOf(b) && CompilesToSomething(c, b.route)
    requires Covers(name, name) && forall e :: !MoreSpecific(e, name)
    ensures MostSpecificServed(c, atts, name, name)
  {
    assert RoutesOfLink(c, b) != multiset{};
  }

  lemma NameBeatsWildcard(d: string)
    ensures "a." + d != "*." + d && MoreSpecific("a." + d, "*." + d)
    ensures Covers("*." + d, "a." + d) && Covers("a." + d, "a." + d)
    ensures forall e :: !MoreSpecific(e, "a." + d)
  {
    assert ("a." + d)[0] == 'a' && ("*." + d)[0] == '*';
    assert ("*." + d)[1..] == "." + d == ("a." + d)[1..];
    assert !Wildcard("a." + d) && "a." + d != "*";
  }

  lemma OneDomain(l: Listener, hr: HTTPRoute, hostname: string)
    requires HostnameOf(l) == "" && hr.hostnames == [hostname]
    ensures forall d :: d in DomainsOf(Link(l, hr)) <==> d == hostname
  {
  }

  /** A route with one prefix serves exactly the paths below the prefix, and compiles to something. */
  lemma OnePathServes(c: Cluster, hr: HTTPRoute, prefix: string, refs: seq<BackendRef>, re: Regexes, req: Request)
    requires prefix != "" && req.path != ""
    requires hr.rules == OnePath("", "", "", "", prefix, refs).rules
    ensures CompilesToSomething(c, hr)
    ensures forall i, j :: IsPair(hr, i, j) ==>
              i == 0 && j == 0 && (Serves(c, hr, i, j, re, req) <==> ElementPrefix(prefix, req.path))
  {
    assert MatchAt(hr, 0, 0) == HTTPRouteMatch(Some(HTTPPathMatch(None, Some(prefix))), [], [], None);
    assert Translatable(MatchAt(hr, 0, 0));
    assert FiltersOf(hr.rules[0].filters) == NO_FILTERS;
    assert Takes(MatchAt(hr, 0, 0), re, req) <==> ElementPrefix(prefix, req.path);
    SwitchedExactly(c, hr, 0, 0);
    PairIncluded(c, hr, 1, 0, 0, 0);
    assert Compiled(c, hr, 0, 0).route.value in multiset(Expanded(c, hr).routes);
  }

  ghost predicate CompilesToSomething(c: Cluster, hr: HTTPRoute) { multiset(Expanded(c, hr).routes) != multiset{} }
}
