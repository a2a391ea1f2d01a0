/** What holds of the resources of every successful build. */
module XdsProperties {
  import opened GatewayApi
  import opened EnvoyApi
  import opened Names
  import opened Backends
  import opened RouteMatching
  import opened RouteTranslation
  import opened RouteProperties
  import opened ListenerConflicts
  import opened Clusters
  import opened VirtualHosts
  import opened PortBuild
  import opened XdsBuild

  /** Chain k belongs to a routed listener. */
  lemma {:induction false} ChainOwner(ls: seq<Listener>, n: nat, k: nat) returns (i: nat)
    requires n <= |ls| && k < ChainsBefore(ls, n)
    ensures i < n && Routed(ls[i]) && ChainsBefore(ls, i) == k
  {
    if k < ChainsBefore(ls, n - 1) { i := ChainOwner(ls, n - 1, k); } else { i := n - 1; }
  }

  /** Attachments to the first i listeners are attachments to all of them. */
  lemma LinksOfPrefix(ls: seq<Listener>, index: Index, i: nat, a: Link)
    requires i <= |ls| && a in AttachmentsUpTo(ls, index, i, 0)
    ensures a in AttachmentsUpTo(ls, index, |ls|, 0)
  {
    AttachmentsExactly(ls, index, i, 0, a);
    AttachmentsExactly(ls, index, |ls|, 0, a);
    assert ls[..|ls|] == ls;
    var k :| 0 <= k < i && ls[..i][k] == a.listener;
    assert ls[k] == a.listener;
  }

  /** The chain is that of listener k of its port: it has its server names, and serves the attachments of the listeners
      up to it. */
  ghost predicate IsChainOf(
    c: Cluster, gw: Gateway, port: int, ls: seq<Listener>, index: Index, chain: FilterChain, k: nat)
  {
    k < |ls| && Routed(ls[k]) && ChainFor(c, gw, port, ls[k], AttachmentsUpTo(ls, index, k + 1, 0), chain)
  }

  /** Every chain is that of some listener. */
  lemma ChainHasOwner(c: Cluster, gw: Gateway, port: int, ls: seq<Listener>, index: Index, chains: seq<FilterChain>, x: nat)
    returns (k: nat)
    requires ChainsFor(c, gw, port, ls, index, |ls|, chains) && x < |chains|
    ensures IsChainOf(c, gw, port, ls, index, chains[x], k) && ChainsBefore(ls, k) == x
  {
    k := ChainOwner(ls, |ls|, x);
    assert HasChain(c, gw, port, ls, index, k, chains);
  }

  /** Every served route was compiled from an attachment to the domain it is served on. */
  lemma ServedRouteOrigin(c: Cluster, gateway: string, port: int, atts: seq<Link>, vhs: seq<VirtualHost>,
                          vh: VirtualHost, r: Route) returns (a: Link)
    requires ServesExactly(c, gateway, port, atts, vhs) && vh in vhs && r in vh.routes
    ensures a in atts && vh.domain in DomainsOf(a) && r in Expanded(c, a.route).routes
  {
    assert r in multiset(vh.routes);
    a := HostRouteOrigin(c, atts, vh.domain, r);
  }

  /** Every emitted route was compiled from a route linked to the listener of its chain or to one before it. */
  lemma EmittedRouteOrigin(c: Cluster, gw: Gateway, index: Index, el: EnvoyListener, chain: FilterChain,
                           vh: VirtualHost, r: Route) returns (a: Link, k: nat)
    requires ForPort(c, gw, index, el)
    requires chain in el.filterChains && vh in chain.virtualHosts && r in vh.routes
    ensures var ls := OnPort(gw.listeners, el.port);
      IsChainOf(c, gw, el.port, ls, index, chain, k) && a.listener in ls[..k + 1]
    ensures Linked(gw, index, a) && a.listener.port == el.port && vh.domain in DomainsOf(a)
    ensures r in Expanded(c, a.route).routes
  {
    k := EmittedChainOwner(c, gw, index, el, chain);
    a := ChainRouteOrigin(c, gw, index, el.port, chain, k, vh, r);
    PrefixIsLinked(gw, index, el.port, k + 1, a);
  }

  lemma EmittedChainOwner(c: Cluster, gw: Gateway, index: Index, el: EnvoyListener, chain: FilterChain) returns (k: nat)
    requires ForPort(c, gw, index, el) && chain in el.filterChains
    ensures IsChainOf(c, gw, el.port, OnPort(gw.listeners, el.port), index, chain, k)
  {
    var x :| 0 <= x < |el.filterChains| && el.filterChains[x] == chain;
    k := ChainHasOwner(c, gw, el.port, OnPort(gw.listeners, el.port), index, el.filterChains, x);
  }

  lemma ChainRouteOrigin(c: Cluster, gw: Gateway, index: Index, port: int32, chain: FilterChain, k: nat,
                         vh: VirtualHost, r: Route) returns (a: Link)
    requires IsChainOf(c, gw, port, OnPort(gw.listeners, port), index, chain, k)
    requires vh in chain.virtualHosts && r in vh.routes
    ensures a in AttachmentsUpTo(OnPort(gw.listeners, port), index, k + 1, 0)
    ensures vh.domain in DomainsOf(a) && r in Expanded(c, a.route).routes
  {
    var atts := AttachmentsUpTo(OnPort(gw.listeners, port), index, k + 1, 0);
    a := ServedRouteOrigin(c, gw.name, port, atts, chain.virtualHosts, vh, r);
  }

  lemma PrefixIsLinked(gw: Gateway, index: Index, port: int32, n: nat, a: Link)
    requires n <= |OnPort(gw.listeners, port)| && a in AttachmentsUpTo(OnPort(gw.listeners, port), index, n, 0)
    ensures Linked(gw, index, a) && a.listener.port == port && a.listener in OnPort(gw.listeners, port)[..n]
  {
    var ls := OnPort(gw.listeners, port);
    AttachmentsExactly(ls, index, n, 0, a);
    LinksOfPrefix(ls, index, n, a);
    LinksOnExactly(gw, index, port, a);
  }

  // ----- how the chains of a port are told apart -----

  /** A listener whose chain asks for no server name. */
  predicate Nameless(l: Listener) { l.protocol == HTTP || (l.protocol == HTTPS && l.hostname.None?) }

  predicate AtMostOneNameless(ls: seq<Listener>) {
    forall i, j :: 0 <= i < j < |ls| ==> !(Nameless(ls[i]) && Nameless(ls[j]))
  }

  predicate ServerNamesDistinct(chains: seq<FilterChain>) {
    forall x, y :: 0 <= x < y < |chains| ==> chains[x].serverNames != chains[y].serverNames
  }

  /** The server names of the chains of a port are pairwise distinct, as Envoy asks, exactly when at most one listener of
      the port is nameless: conflicts only keep apart listeners that share a hostname. */
  lemma ServerNamesDistinctExactly(c: Cluster, gw: Gateway, index: Index, el: EnvoyListener)
    requires ForPort(c, gw, index, el) && ListenersValid(gw)
    ensures ServerNamesDistinct(el.filterChains) <==> AtMostOneNameless(OnPort(gw.listeners, el.port))
  {
    var ls, chains := OnPort(gw.listeners, el.port), el.filterChains;
    if i, j :| 0 <= i < j < |ls| && Nameless(ls[i]) && Nameless(ls[j]) {
      var x := ChainOfListener(c, gw, el.port, ls, index, chains, i);
      var y := ChainOfListener(c, gw, el.port, ls, index, chains, j);
      ChainsBeforeMonotone(ls, i, j);
    }
    if x, y :| 0 <= x < y < |chains| && chains[x].serverNames == chains[y].serverNames {
      var i := OwnerOfChain(c, gw, el.port, ls, index, chains, x);
      var j := OwnerOfChain(c, gw, el.port, ls, index, chains, y);
      if j < i { ChainsBeforeMonotone(ls, j, i); }
      SameNamesNameless(gw, el.port, ls, i, j);
    }
  }

  lemma ChainOfListener(c: Cluster, gw: Gateway, port: int, ls: seq<Listener>, index: Index, chains: seq<FilterChain>,
                        i: nat) returns (x: nat)
    requires ChainsFor(c, gw, port, ls, index, |ls|, chains) && i < |ls| && Routed(ls[i])
    ensures x == ChainsBefore(ls, i) < |chains| && chains[x].serverNames == ServerNamesOf(ls[i])
  {
    assert HasChain(c, gw, port, ls, index, i, chains);
    x := ChainsBefore(ls, i);
  }

  lemma OwnerOfChain(c: Cluster, gw: Gateway, port: int, ls: seq<Listener>, index: Index, chains: seq<FilterChain>,
                     x: nat) returns (i: nat)
    requires ChainsFor(c, gw, port, ls, index, |ls|, chains) && x < |chains|
    ensures i < |ls| && Routed(ls[i]) && ChainsBefore(ls, i) == x && chains[x].serverNames == ServerNamesOf(ls[i])
  {
    i := ChainHasOwner(c, gw, port, ls, index, chains, x);
  }

  /** Valid listeners with equal server names on one port are both nameless. */
  lemma SameNamesNameless(gw: Gateway, port: int32, ls: seq<Listener>, i: nat, j: nat)
    requires ListenersValid(gw) && ls == OnPort(gw.listeners, port)
    requires i < j < |ls| && Routed(ls[i]) && Routed(ls[j]) && ServerNamesOf(ls[i]) == ServerNamesOf(ls[j])
    ensures Nameless(ls[i]) && Nameless(ls[j])
  {
    if !Nameless(ls[i]) { SharedHostnameConflicts(gw, port, ls, i, j); }
  }

  lemma SharedHostnameConflicts(gw: Gateway, port: int32, ls: seq<Listener>, i: nat, j: nat)
    requires ls == OnPort(gw.listeners, port)
    requires i < j < |ls| && ByHostname(ls[i]) && ByHostname(ls[j]) && HostnameOf(ls[i]) == HostnameOf(ls[j])
    ensures ls[i] in gw.listeners && NameInConflict(gw.listeners, ls[i].name)
  {
    SharingFound(ls, i, j);
    assert ls[i] in ls && SharesHostname(ls, ls[i].name);
    PortCheckExactly(gw.listeners, port, ls[i].name);
    OnPortExactly(gw.listeners, port, ls[i]);
  }

  // ----- when routes can be built -----

  /** The pair compiles to a route that forwards to its rule's backends. */
  predicate Forwards(c: Cluster, hr: HTTPRoute, i: nat, j: nat) {
    && IsPair(hr, i, j) && Translatable(MatchAt(hr, i, j))
    && FiltersOf(hr.rules[i].filters).redirect.None?
    && ForwardingOf(c, hr.namespace, hr.rules[i].backendRefs).Ok?
  }

  predicate ReferenceBuildable(c: Cluster, namespace: string, ref: BackendRef) {
    Fetched(c, namespace, ref).Ok? && Buildable(Fetched(c, namespace, ref).value)
  }

  /** A route can be built exactly when every reference of every rule that forwards has a buildable backend, be its
      weight zero or not. */
  lemma RouteBuildableExactly(c: Cluster, hr: HTTPRoute)
    ensures RouteBuildable(c, hr) <==>
            forall i: nat, j: nat, ref :: Forwards(c, hr, i, j) && ref in hr.rules[i].backendRefs ==>
              ReferenceBuildable(c, hr.namespace, ref)
  {
    if RouteBuildable(c, hr) {
      forall i: nat, j: nat, ref | Forwards(c, hr, i, j) && ref in hr.rules[i].backendRefs
        ensures ReferenceBuildable(c, hr.namespace, ref)
      {
        var refs := hr.rules[i].backendRefs;
        BackendsFaithful(c, hr.namespace, refs);
        var k :| 0 <= k < |refs| && refs[k] == ref;
        var b := Compiled(c, hr, i, j).backends[k];
        PairIncluded(c, hr, |hr.rules|, 0, i, j);
        assert b in Compiled(c, hr, i, j).backends;
      }
    } else {
      var b :| b in Expanded(c, hr).backends && !Buildable(b);
      var i, j := BackendPair(c, hr, |hr.rules|, 0, b);
      var refs := hr.rules[i].backendRefs;
      BackendsFaithful(c, hr.namespace, refs);
      var k :| 0 <= k < |refs| && Compiled(c, hr, i, j).backends[k] == b;
      assert Forwards(c, hr, i, j) && refs[k] in refs && !ReferenceBuildable(c, hr.namespace, refs[k]);
    }
  }

  /** So a reference of weight zero, which gets no traffic, fails the build of every Gateway its route is linked to, when
      its Service has named ports only. */
  lemma IdleServiceBlocksBuild(c: Cluster, hr: HTTPRoute, i: nat, j: nat, ref: BackendRef, gw: Gateway, index: Index,
                               l: Listener)
    requires Linked(gw, index, Link(l, hr))
    requires Forwards(c, hr, i, j) && ref in hr.rules[i].backendRefs
    requires ref.kind == "Service" && NamespacedName(NamespaceOf(hr.namespace, ref), ref.name) in c.services
    requires forall p :: p in c.services[NamespacedName(NamespaceOf(hr.namespace, ref), ref.name)].ports ==>
               p.targetPort.NamedPort?
    ensures WeightOf(ref) == 0 && !RouteBuildable(c, hr) && !BuildableGateway(c, gw, index)
  {
    var ports := c.services[NamespacedName(NamespaceOf(hr.namespace, ref), ref.name)].ports;
    NamedPortsAreSkipped(ports);
    assert !ReferenceBuildable(c, hr.namespace, ref);
    RouteBuildableExactly(c, hr);
    ResolvesOrFails(c, hr.namespace, hr.rules[i].backendRefs, ref);
  }

  lemma {:induction false} NamedPortsAreSkipped(ports: seq<ServicePort>)
    requires forall p :: p in ports ==> p.targetPort.NamedPort?
    ensures PortsOfService(ports) == []
  {
    if ports != [] {
      assert ports[|ports| - 1] in ports;
      NamedPortsAreSkipped(ports[..|ports| - 1]);
    }
  }

  lemma {:induction false} ResolvesOrFails(c: Cluster, namespace: string, refs: seq<BackendRef>, ref: BackendRef)
    requires ResolveAll(c, namespace, refs).Ok? && ref in refs
    ensures Resolve(c, namespace, ref).Ok?
  {
    if ref in refs[..|refs| - 1] { ResolvesOrFails(c, namespace, refs[..|refs| - 1], ref); }
  }

  // ----- references and endpoints -----

  /** Referential integrity: every cluster that any emitted route forwards to is an emitted cluster. */
  lemma ReferencesResolve(c: Cluster, gw: Gateway, index: Index, x: XdsResources, order: seq<int32>,
                          el: EnvoyListener, chain: FilterChain, vh: VirtualHost, r: Route, cw: ClusterWeight)
    requires IsBuild(c, gw, index, x, order) && PortsFit(c)
    requires el in x.listeners && chain in el.filterChains && vh in chain.virtualHosts && r in vh.routes
    requires cw in ClustersOf(r)
    ensures exists cl :: cl in x.clusters && cl.name == cw.name
  {
    var a, _ := EmittedRouteOrigin(c, gw, index, el, chain, vh, r);
    RoutesForwardToClusters(c, a.route, r, cw);
    var b, p :| b in Expanded(c, a.route).backends && p in b.ports &&
      cw.name == ClusterName(b.namespace, BackendClusterName(b), p.number);
    LinkedBackendAlong(c, gw, index, order, a, b);
    ClusterListed(x.clusters, BackendsAlong(c, gw, index, order), b, p);
  }

  /** The backends of a linked route are among those of the build. */
  lemma LinkedBackendAlong(c: Cluster, gw: Gateway, index: Index, order: seq<int32>, a: Link, b: RouteBackend)
    requires PortOrder(gw, order) && Linked(gw, index, a) && b in Expanded(c, a.route).backends
    ensures b in BackendsAlong(c, gw, index, order)
  {
    LinksOnExactly(gw, index, a.listener.port, a);
    assert a.listener.port in order && BackendOn(c, gw, index, a.listener.port, b);
    InBackendsAlong(c, gw, index, order, b);
  }

  /** The port of a listed backend has its cluster. */
  lemma ClusterListed(clusters: seq<EnvoyCluster>, bs: seq<RouteBackend>, b: RouteBackend, p: RouteBackendPort)
    requires ListsTable(clusters, TableOf(bs)) && b in bs && p in b.ports
    ensures exists cl :: cl in clusters && cl.name == PortName(b, p)
  {
    TableHasPort(bs, b, p);
    TableNames(bs);
    assert TableOf(bs)[PortName(b, p)] in clusters;
  }

  /** The names that the emitted EDS clusters ask endpoints for. */
  function RequestedEndpoints(clusters: seq<EnvoyCluster>): set<string> {
    set cl | cl in clusters && cl.discovery.Eds? :: cl.discovery.serviceName
  }

  /** What the snapshot's consistency check asks of clusters and endpoints: the names asked for are the names given. */
  predicate ConsistentSnapshot(x: XdsResources) { RequestedEndpoints(x.clusters) == AssignmentNames(x.endpoints) }

  lemma RequestedAreServiceNames(clusters: seq<EnvoyCluster>, bs: seq<RouteBackend>)
    requires ListsTable(clusters, TableOf(bs))
    ensures RequestedEndpoints(clusters) == ServiceNames(TableOf(bs))
  {
    var table := TableOf(bs);
    TableNames(bs);
    forall n | n in RequestedEndpoints(clusters) ensures n in ServiceNames(table) {
      var cl :| cl in clusters && cl.discovery.Eds? && cl.discovery.serviceName == n;
      assert table[cl.name] == cl;
    }
    forall n | n in ServiceNames(table) ensures n in RequestedEndpoints(clusters) {
      var m :| m in table && table[m].discovery.Eds? && table[m].discovery.serviceName == n;
      assert table[m] in clusters;
    }
  }
}
