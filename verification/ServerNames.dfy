/** From the server name that a client asks for to the listener whose chain serves the connection. */
module ServerNames {
  import opened Text
  import opened Domains
  import opened GatewayApi
  import opened EnvoyApi
  import opened RouteTranslation
  import opened RouteProperties
  import opened Hostnames
  import opened Attachment
  import opened ListenerConflicts
  import opened VirtualHosts
  import opened PortBuild
  import opened XdsBuild
  import opened XdsProperties
  import opened EndToEnd
  import opened Witnesses
  import opened Isolation

  /** What the listener's chain asks for. */
  function AskedName(l: Listener): string { NameDomain(ServerNamesOf(l)) }

  /** The listener gets a chain that takes the server name. */
  predicate TakesName(l: Listener, sni: string) { Routed(l) && Covers(AskedName(l), sni) }

  /** Listener k takes the server name, and no other with a more specific one does. */
  predicate Nearest(ls: seq<Listener>, k: nat, sni: string) {
    && k < |ls| && TakesName(ls[k], sni)
    && forall l :: l in ls && TakesName(l, sni) ==> !MoreSpecific(AskedName(l), AskedName(ls[k]))
  }

  /** No listener is called "*"; the API's validation refuses it. */
  predicate NoStar(gw: Gateway) { forall l :: l in gw.listeners ==> l.hostname != Some("*") }

  /** The chain of listener k. */
  function ChainOf(ls: seq<Listener>, el: EnvoyListener, k: nat): FilterChain
    requires k < |ls| && ChainsBefore(ls, k) < |el.filterChains|
  {
    el.filterChains[ChainsBefore(ls, k)]
  }

  lemma RoutedHasChainOf(c: Cluster, gw: Gateway, index: Index, el: EnvoyListener, k: nat)
    requires ForPort(c, gw, index, el)
    requires k < |OnPort(gw.listeners, el.port)| && Routed(OnPort(gw.listeners, el.port)[k])
    ensures var ls := OnPort(gw.listeners, el.port);
      && ChainsBefore(ls, k) < |el.filterChains| && IsChainOf(c, gw, el.port, ls, index, ChainOf(ls, el, k), k)
      && ChainOf(ls, el, k) in el.filterChains
      && ChainOf(ls, el, k).serverNames == ServerNamesOf(ls[k])
  {
    assert HasChain(c, gw, el.port, OnPort(gw.listeners, el.port), index, k, el.filterChains);
  }

  /** Envoy selects the chain of a listener exactly when the listener is the nearest to the server name. */
  lemma SelectedExactly(c: Cluster, gw: Gateway, index: Index, el: EnvoyListener, sni: string, k: nat)
    requires ForPort(c, gw, index, el) && ServerNamesDistinct(el.filterChains) && NoStar(gw)
    requires k < |OnPort(gw.listeners, el.port)| && Routed(OnPort(gw.listeners, el.port)[k])
    ensures var ls := OnPort(gw.listeners, el.port);
      && ChainsBefore(ls, k) < |el.filterChains|
      && (Nearest(ls, k, sni) <==> SelectChain(el.filterChains, sni) == Some(ChainOf(ls, el, k)))
  {
    var ls, chosen := OnPort(gw.listeners, el.port), SelectChain(el.filterChains, sni);
    RoutedHasChainOf(c, gw, index, el, k);
    if Nearest(ls, k, sni) { NearestIsSelected(c, gw, index, el, sni, k); }
    if chosen == Some(ChainOf(ls, el, k)) {
      forall l | l in ls && TakesName(l, sni) ensures !MoreSpecific(AskedName(l), AskedName(ls[k])) {
        var i :| 0 <= i < |ls| && ls[i] == l;
        RoutedHasChainOf(c, gw, index, el, i);
      }
    }
  }

  lemma NearestIsSelected(c: Cluster, gw: Gateway, index: Index, el: EnvoyListener, sni: string, k: nat)
    requires ForPort(c, gw, index, el) && ServerNamesDistinct(el.filterChains) && NoStar(gw)
    requires Nearest(OnPort(gw.listeners, el.port), k, sni)
    ensures var ls := OnPort(gw.listeners, el.port);
      ChainsBefore(ls, k) < |el.filterChains| && SelectChain(el.filterChains, sni) == Some(ChainOf(ls, el, k))
  {
    var ls := OnPort(gw.listeners, el.port);
    RoutedHasChainOf(c, gw, index, el, k);
    var own := ChainOf(ls, el, k);
    var chosen := SelectChain(el.filterChains, sni).value;
    var i := EmittedChainOwner(c, gw, index, el, chosen);
    assert ls[i] in ls && TakesName(ls[i], sni);
    if AskedName(ls[i]) != AskedName(ls[k]) { CoveringDomainsAreRanked(AskedName(ls[i]), AskedName(ls[k]), sni); }
    SameNameSameChain(gw, el.port, ls, i, k);
    var x :| 0 <= x < |el.filterChains| && el.filterChains[x] == chosen;
    assert x == ChainsBefore(ls, k);
  }

  lemma SameNameSameChain(gw: Gateway, port: int32, ls: seq<Listener>, i: nat, k: nat)
    requires ls == OnPort(gw.listeners, port) && i < |ls| && k < |ls| && NoStar(gw)
    requires AskedName(ls[i]) == AskedName(ls[k])
    ensures ServerNamesOf(ls[i]) == ServerNamesOf(ls[k])
  {
    OnPortExactly(gw.listeners, port, ls[i]);
    OnPortExactly(gw.listeners, port, ls[k]);
  }

  /** Nobody is selected exactly when no listener of the port takes the server name. */
  lemma NobodySelectedExactly(c: Cluster, gw: Gateway, index: Index, el: EnvoyListener, sni: string)
    requires ForPort(c, gw, index, el)
    ensures SelectChain(el.filterChains, sni).None? <==>
            forall l :: l in OnPort(gw.listeners, el.port) ==> !TakesName(l, sni)
  {
    var ls := OnPort(gw.listeners, el.port);
    if SelectChain(el.filterChains, sni).Some? {
      var i := EmittedChainOwner(c, gw, index, el, SelectChain(el.filterChains, sni).value);
      assert ls[i] in ls && TakesName(ls[i], sni);
    }
    if l :| l in ls && TakesName(l, sni) {
      var i :| 0 <= i < |ls| && ls[i] == l;
      RoutedHasChainOf(c, gw, index, el, i);
    }
  }

  // ----- requests over TLS -----

  /** Whatever answers a request over a connection for a server name comes from the chain of the nearest listener: from a
      route that attaches to this listener or to one before it on the port, and from one of the listener's own if its
      chain is isolated. */
  lemma NearestListenerAnswers(c: Cluster, gw: Gateway, routes: seq<HTTPRoute>, index: Index, els: seq<EnvoyListener>,
                               el: EnvoyListener, chain: FilterChain, sni: string, re: Regexes, req: Request)
    returns (k: nat, l: Listener, hr: HTTPRoute, i: nat, j: nat)
    requires Indexes(c, gw, routes, index) && ListenersFor(c, gw, index, els) && ValidHostnames(gw, routes)
    requires el in els && ServerNamesDistinct(el.filterChains)
    requires SelectChain(el.filterChains, sni) == Some(chain)
    requires req.path != "" && Answer(chain.virtualHosts, re, req).Some?
    ensures Nearest(OnPort(gw.listeners, el.port), k, sni) && l in OnPort(gw.listeners, el.port)[..k + 1]
    ensures Routed(l) && hr in routes && Attaches(c, gw, hr, l.name)
    ensures IsPair(hr, i, j) && Serves(c, hr, i, j, re, req)
    ensures Compiled(c, hr, i, j).route == Answer(chain.virtualHosts, re, req)
    ensures var ls := OnPort(gw.listeners, el.port);
      IsolatedChain(c, ls, index, k) ==>
      OwnRoute(c, gw, routes, ls[k], SelectHost(chain.virtualHosts, req.host).value.domain,
               Answer(chain.virtualHosts, re, req).value)
  {
    k, l, hr, i, j := AnsweredByAttachedPair(c, gw, routes, index, els, el, chain, re, req);
    var ls := OnPort(gw.listeners, el.port);
    ValidMeansNoStar(gw, routes);
    ChainIsOwners(c, gw, index, el, chain, k);
    SelectedExactly(c, gw, index, el, sni, k);
    if IsolatedChain(c, ls, index, k) { IsolationMeaning(c, gw, routes, index, el.port, ls, chain, k); }
  }

  lemma ValidMeansNoStar(gw: Gateway, routes: seq<HTTPRoute>)
    requires ValidHostnames(gw, routes)
    ensures NoStar(gw)
  {
  }

  lemma ChainIsOwners(c: Cluster, gw: Gateway, index: Index, el: EnvoyListener, chain: FilterChain, k: nat)
    requires ForPort(c, gw, index, el) && ServerNamesDistinct(el.filterChains) && chain in el.filterChains
    requires IsChainOf(c, gw, el.port, OnPort(gw.listeners, el.port), index, chain, k)
    ensures var ls := OnPort(gw.listeners, el.port); ChainsBefore(ls, k) < |el.filterChains| && chain == ChainOf(ls, el, k)
  {
    RoutedHasChainOf(c, gw, index, el, k);
    var x :| 0 <= x < |el.filterChains| && el.filterChains[x] == chain;
    assert x == ChainsBefore(OnPort(gw.listeners, el.port), k);
  }

  /** Conversely, over a connection for a server name that the listener is the nearest to, what a pair of a route attached
      to the listener serves is answered, unless the attachment is shadowed. */
  lemma NearestPairIsAnswered(c: Cluster, gw: Gateway, routes: seq<HTTPRoute>, index: Index, els: seq<EnvoyListener>,
                              l: Listener, hr: HTTPRoute, i: nat, j: nat, sni: string, re: Regexes, req: Request)
    returns (el: EnvoyListener, chain: FilterChain, k: nat)
    requires Indexes(c, gw, routes, index) && ListenersFor(c, gw, index, els) && NamesDetermine(gw) && NoStar(gw)
    requires l in gw.listeners && Routed(l) && hr in routes && Attaches(c, gw, hr, l.name)
    requires IsPair(hr, i, j) && req.path != "" && Serves(c, hr, i, j, re, req)
    requires DomainsCover(l, hr.hostnames, req.host) && TakesName(l, sni)
    requires forall x :: x in OnPort(gw.listeners, l.port) && TakesName(x, sni) ==> !MoreSpecific(AskedName(x), AskedName(l))
    ensures el in els && el.port == l.port
    ensures var ls := OnPort(gw.listeners, l.port);
      && k < |ls| && ls[k] == l
      && (ServerNamesDistinct(el.filterChains) ==> SelectChain(el.filterChains, sni) == Some(chain))
      && (Answer(chain.virtualHosts, re, req).None? <==>
            Shadowed(c, AttachmentsUpTo(ls, index, k + 1, 0), Link(l, hr), re, req))
  {
    el, chain, k := AttachedPairIsAnswered(c, gw, routes, index, els, l, hr, i, j, re, req);
    if ServerNamesDistinct(el.filterChains) {
      ChainIsOwners(c, gw, index, el, chain, k);
      SelectedExactly(c, gw, index, el, sni, k);
    }
  }

  // ----- a server name and a host of two listeners -----

  /** Of two HTTPS listeners with names, the chain of the second answers a request for a host of the first, over a
      connection for its own name, with a route that only the first one takes. */
  lemma ForeignRouteAnswers(c: Cluster, gw: Gateway, l1: Listener, l2: Listener, hr: HTTPRoute, i: nat, j: nat,
                            els: seq<EnvoyListener>, el: EnvoyListener, re: Regexes, req: Request)
    returns (chain: FilterChain)
    requires TwoListeners(gw, l1, l2) && RefersToAll(gw, hr) && NoStar(gw) && !Wildcard(HostnameOf(l2))
    requires HostnameAllows(l1, hr.hostnames) && !HostnameAllows(l2, hr.hostnames)
    requires IsPair(hr, i, j) && Serves(c, hr, i, j, re, req) && req.path != ""
    requires DomainsCover(l1, hr.hostnames, req.host)
    requires ListenersFor(c, gw, IndexOfOne(l1, l2, hr), els) && el in els
    ensures Indexes(c, gw, [hr], IndexOfOne(l1, l2, hr)) && !Attaches(c, gw, hr, l2.name)
    ensures SelectChain(el.filterChains, HostnameOf(l2)) == Some(chain) && Answer(chain.virtualHosts, re, req).Some?
  {
    var index, own := IndexOfOne(l1, l2, hr), Link(l1, hr);
    OneRouteIndexes(c, gw, l1, l2, hr);
    assert l2 in gw.listeners;
    chain := SecondSelected(c, gw, l1, l2, index, el);
    SiblingChain(c, gw, l1, l2, index, el, chain);
    SiblingLinks(l1, l2, hr);
    LostExactly(c, gw.name, el.port, [own], chain.virtualHosts, own, i, j, re, req);
    NothingShadowsAlone(c, own, re, req);
  }

  /** The chain of the second listener is selected by its own name. */
  lemma SecondSelected(c: Cluster, gw: Gateway, l1: Listener, l2: Listener, index: Index, el: EnvoyListener)
    returns (chain: FilterChain)
    requires TwoListeners(gw, l1, l2) && NoStar(gw) && !Wildcard(HostnameOf(l2)) && ForPort(c, gw, index, el)
    ensures SelectChain(el.filterChains, HostnameOf(l2)) == Some(chain)
    ensures chain in el.filterChains && chain.serverNames == l2.hostname
  {
    BothOnPort(c, gw, l1, l2, index, el);
    NamesOfTwoDiffer(c, gw, l1, l2, index, el);
    SecondIsNearest(gw, l1, l2);
    RoutedHasChainOf(c, gw, index, el, 1);
    NearestIsSelected(c, gw, index, el, HostnameOf(l2), 1);
    chain := ChainOf([l1, l2], el, 1);
  }

  lemma BothOnPort(c: Cluster, gw: Gateway, l1: Listener, l2: Listener, index: Index, el: EnvoyListener)
    requires TwoListeners(gw, l1, l2) && ForPort(c, gw, index, el)
    ensures OnPort(gw.listeners, el.port) == [l1, l2]
  {
    var k := EmittedChainOwner(c, gw, index, el, el.filterChains[0]);
    TwoOnPort(l1, l2, el.port);
  }

  lemma NamesOfTwoDiffer(c: Cluster, gw: Gateway, l1: Listener, l2: Listener, index: Index, el: EnvoyListener)
    requires TwoListeners(gw, l1, l2) && ForPort(c, gw, index, el) && OnPort(gw.listeners, el.port) == [l1, l2]
    ensures ServerNamesDistinct(el.filterChains)
  {
    TwoListenersValid(gw, l1, l2);
    ServerNamesDistinctExactly(c, gw, index, el);
  }

  lemma SecondIsNearest(gw: Gateway, l1: Listener, l2: Listener)
    requires TwoListeners(gw, l1, l2) && NoStar(gw) && !Wildcard(HostnameOf(l2))
    ensures Nearest([l1, l2], 1, HostnameOf(l2))
  {
    assert l2 in gw.listeners && HostnameOf(l2) != "*";
  }

  /** An attachment that has the virtual hosts for itself is not shadowed. */
  lemma NothingShadowsAlone(c: Cluster, own: Link, re: Regexes, req: Request)
    ensures !Shadowed(c, [own], own, re, req)
  {
    forall d | MostSpecificServed(c, [own], req.host, d) ensures d in DomainsOf(own) && !MoreSpecific(d, d) {
    }
  }
}
