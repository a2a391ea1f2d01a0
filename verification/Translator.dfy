/** From a Gateway and all HTTPRoutes to xDS resources, and what the two ends have to do with each other. */
module Translator {
  import opened Text
  import opened GatewayApi
  import opened EnvoyApi
  import opened RouteMatching
  import opened RouteTranslation
  import opened RouteProperties
  import opened Hostnames
  import opened Attachment
  import opened ListenerConflicts
  import opened VirtualHosts
  import opened RouteStatuses
  import opened PortBuild
  import opened XdsBuild
  import opened XdsProperties
  import Manifests

  /** Attaches the routes of the lister and builds the resources from what attached. */
  method TranslateGatewayAndReferencesToXDS(c: Cluster, gw: Gateway, routes: seq<HTTPRoute>)
    returns (r: BuildOutcome, statuses: ParentStatuses, ghost index: Index,
             ghost gathered: ParentStatuses, ghost order: seq<int32>)
    ensures Indexes(c, gw, routes, index)
    ensures KeysOf(Referring(gw, routes)) == gathered.Keys
    ensures DistinctKeys(routes) ==> Records(c, gw, Referring(gw, routes), gathered)
    ensures r.Built? <==> BuildableGateway(c, gw, index)
    ensures !r.Built? ==> Excuses(c, gw, index, r)
    ensures r.Built? ==> IsBuild(c, gw, index, r.resources, order)
    ensures r.Built? ==> statuses == MergedAlong(c, gw, index, gathered, order)
  {
    var routesByListener, parentStatuses := GatherRoutesAndParentStatuses(c, gw, routes);
    index, gathered := routesByListener, parentStatuses;
    r, statuses, order := BuildXDSFromGatewayAndRoutes(c, gw, routesByListener, parentStatuses);
  }

  /** Soundness: whatever route Envoy is given in the filter chain of a listener, it was compiled from an HTTPRoute of the
      lister that attaches to this listener, or to an HTTP or HTTPS listener before it on the port, on one of the
      domains the two share. */
  lemma EmittedRouteIsAttached(c: Cluster, gw: Gateway, routes: seq<HTTPRoute>, index: Index, els: seq<EnvoyListener>,
                               el: EnvoyListener, chain: FilterChain, vh: VirtualHost, r: Route)
    returns (k: nat, l: Listener, hr: HTTPRoute)
    requires Indexes(c, gw, routes, index) && ListenersFor(c, gw, index, els)
    requires el in els && chain in el.filterChains && vh in chain.virtualHosts && r in vh.routes
    ensures l in gw.listeners && (l.protocol == HTTP || l.protocol == HTTPS) && l.port == el.port
    ensures var ls := OnPort(gw.listeners, l.port);
      IsChainOf(c, gw, el.port, ls, index, chain, k) && l in ls[..k + 1]
    ensures hr in routes && Attaches(c, gw, hr, l.name) && vh.domain in Intersecting(l, hr.hostnames)
    ensures r in Expanded(c, hr).routes
  {
    var a, owner := EmittedRouteOrigin(c, gw, index, el, chain, vh, r);
    k, l, hr := owner, a.listener, a.route;
    assert Lookup(index, l.name) == Attached(c, gw, routes, l.name);
    AttachedExactly(c, gw, routes, l.name, hr);
  }

  /** A route that attaches to listener i of a port is among the attachments up to that listener. */
  lemma AttachedIsLinked(c: Cluster, gw: Gateway, routes: seq<HTTPRoute>, index: Index, l: Listener, hr: HTTPRoute, i: nat)
    requires Indexes(c, gw, routes, index) && NamesDetermine(gw)
    requires l in gw.listeners && Routed(l) && hr in routes && Attaches(c, gw, hr, l.name)
    requires var ls := OnPort(gw.listeners, l.port); i < |ls| && ls[i] == l
    ensures Link(l, hr) in AttachmentsUpTo(OnPort(gw.listeners, l.port), index, i + 1, 0)
    ensures HostnameAllows(l, hr.hostnames)
  {
    AttachedIsListed(c, gw, routes, index, l, hr);
    OwnAttachment(OnPort(gw.listeners, l.port), index, i, Link(l, hr));
    AttachesAllows(c, gw, l, hr);
  }

  lemma AttachedIsListed(c: Cluster, gw: Gateway, routes: seq<HTTPRoute>, index: Index, l: Listener, hr: HTTPRoute)
    requires Indexes(c, gw, routes, index) && Routed(l)
    ensures hr in RoutesOn(l, index) <==> hr in routes && Attaches(c, gw, hr, l.name)
  {
    assert Lookup(index, l.name) == Attached(c, gw, routes, l.name);
    AttachedExactly(c, gw, routes, l.name, hr);
  }

  lemma AttachesAllows(c: Cluster, gw: Gateway, l: Listener, hr: HTTPRoute)
    requires NamesDetermine(gw) && l in gw.listeners && Attaches(c, gw, hr, l.name)
    ensures HostnameAllows(l, hr.hostnames)
  {
  }

  /** The filter chain of an HTTP or HTTPS listener; all routes that attach to the listener are among those it serves. */
  lemma ListenerChain(c: Cluster, gw: Gateway, routes: seq<HTTPRoute>, index: Index, els: seq<EnvoyListener>, l: Listener)
    returns (el: EnvoyListener, chain: FilterChain, k: nat)
    requires Indexes(c, gw, routes, index) && ListenersFor(c, gw, index, els) && NamesDetermine(gw)
    requires l in gw.listeners && (l.protocol == HTTP || l.protocol == HTTPS)
    ensures el in els && el.port == l.port && chain in el.filterChains
    ensures var ls := OnPort(gw.listeners, l.port); IsChainOf(c, gw, el.port, ls, index, chain, k) && ls[k] == l
    ensures el.name == "listener-" + Signed(l.port) && chain.routeConfigName == "listener_" + l.name + "_routes"
    ensures forall hr :: hr in routes && Attaches(c, gw, hr, l.name) ==>
              Link(l, hr) in AttachmentsUpTo(OnPort(gw.listeners, l.port), index, k + 1, 0)
              && HostnameAllows(l, hr.hostnames)
  {
    el :| el in els && el.port == l.port;
    var ls := OnPort(gw.listeners, l.port);
    OnPortExactly(gw.listeners, l.port, l);
    k :| 0 <= k < |ls| && ls[k] == l;
    assert HasChain(c, gw, el.port, ls, index, k, el.filterChains);
    chain := el.filterChains[ChainsBefore(ls, k)];
    assert IsChainOf(c, gw, el.port, ls, index, chain, k);
    forall hr | hr in routes && Attaches(c, gw, hr, l.name)
      ensures Link(l, hr) in AttachmentsUpTo(ls, index, k + 1, 0) && HostnameAllows(l, hr.hostnames)
    {
      AttachedIsLinked(c, gw, routes, index, l, hr, k);
    }
  }

  /** Completeness: an HTTPRoute that attaches to an HTTP or HTTPS listener and compiles to anything is served by that
      listener's own filter chain, with all its routes, on a domain the two share. */
  lemma AttachedRouteIsServed(c: Cluster, gw: Gateway, routes: seq<HTTPRoute>, index: Index, els: seq<EnvoyListener>,
                              l: Listener, hr: HTTPRoute)
    returns (el: EnvoyListener, chain: FilterChain, vh: VirtualHost)
    requires Indexes(c, gw, routes, index) && ListenersFor(c, gw, index, els) && NamesDetermine(gw)
    requires l in gw.listeners && (l.protocol == HTTP || l.protocol == HTTPS)
    requires hr in routes && Attaches(c, gw, hr, l.name) && Expanded(c, hr).routes != []
    ensures el in els && el.port == l.port && chain in el.filterChains
    ensures chain.serverNames == if l.protocol == HTTPS then l.hostname else None
    ensures vh in chain.virtualHosts && vh.domain in Intersecting(l, hr.hostnames)
    ensures forall r :: r in Expanded(c, hr).routes ==> r in vh.routes
  {
    var k;
    el, chain, k := ListenerChain(c, gw, routes, index, els, l);
    var atts := AttachmentsUpTo(OnPort(gw.listeners, l.port), index, k + 1, 0);
    vh := AttachedIsServed(c, gw.name, el.port, atts, chain.virtualHosts, Link(l, hr));
  }

  /** The chain of listener k of a port lists the listener's own routes and no others, not even a second time, exactly when
      the routes of every listener before it on the port compile to nothing. */
  lemma NoRouteAddedExactly(c: Cluster, gw: Gateway, routes: seq<HTTPRoute>, index: Index, port: int32, k: nat)
    requires Indexes(c, gw, routes, index) && NamesDetermine(gw) && k < |OnPort(gw.listeners, port)|
    ensures var ls := OnPort(gw.listeners, port);
      SameRoutes(c, AttachmentsUpTo(ls, index, k + 1, 0), OwnLinks(ls[k], RoutesOn(ls[k], index)))
      <==> forall i :: 0 <= i < k ==> Silent(c, RoutesOn(ls[i], index))
  {
    var ls := OnPort(gw.listeners, port);
    forall a | a in AttachmentsUpTo(ls, index, k, 0) ensures HostnameAllows(a.listener, a.route.hostnames) {
      PrefixIsLinked(gw, index, port, k, a);
      LinkedExactly(c, gw, routes, index, a);
    }
    NoRouteAdded(c, ls, index, k);
  }

  // ----- what listeners are told -----

  /** The places of a list where the condition holds. */
  function Places<T>(s: seq<T>, p: T -> bool): set<int> { set k | 0 <= k < |s| && p(s[k]) }

  lemma PlacesOneMore<T>(s: seq<T>, x: T, p: T -> bool)
    ensures |Places(s + [x], p)| == |Places(s, p)| + if p(x) then 1 else 0
  {
    assert Places(s + [x], p) == Places(s, p) + if p(x) then {|s|} else {};
  }

  /** The route attaches to the listener, and some match of it is not rejected. */
  ghost function AttachesAndCompiles(c: Cluster, gw: Gateway, name: string): HTTPRoute -> bool {
    (hr: HTTPRoute) => Attaches(c, gw, hr, name) && SomeTranslatable(hr)
  }

  ghost predicate SomeTranslatable(hr: HTTPRoute) { exists i, j :: IsPair(hr, i, j) && Translatable(MatchAt(hr, i, j)) }

  lemma CompilesExactly(c: Cluster, hr: HTTPRoute)
    ensures Expanded(c, hr).routes != [] <==> SomeTranslatable(hr)
  {
    var routes := Expanded(c, hr).routes;
    if routes != [] { var i, j := RouteOrigin(c, hr, |hr.rules|, 0, routes[0]); }
    if i, j :| IsPair(hr, i, j) && Translatable(MatchAt(hr, i, j)) { PairIncluded(c, hr, |hr.rules|, 0, i, j); }
  }

  lemma {:induction false} CompilingCounted(c: Cluster, gw: Gateway, routes: seq<HTTPRoute>, name: string)
    ensures TranslatedRoutes(c, Attached(c, gw, routes, name)) == |Places(routes, AttachesAndCompiles(c, gw, name))|
  {
    if routes != [] {
      var front, last := routes[..|routes| - 1], routes[|routes| - 1];
      CompilingCounted(c, gw, front, name);
      assert routes == front + [last];
      PlacesOneMore(front, last, AttachesAndCompiles(c, gw, name));
      AttachedLast(c, gw, front, last, name);
      CompilesExactly(c, last);
      TranslatedLast(c, Attached(c, gw, front, name), last);
    }
  }

  lemma AttachedLast(c: Cluster, gw: Gateway, front: seq<HTTPRoute>, last: HTTPRoute, name: string)
    ensures Attached(c, gw, front + [last], name) ==
              if Attaches(c, gw, last, name) then Attached(c, gw, front, name) + [last] else Attached(c, gw, front, name)
  {
    assert (front + [last])[..|front|] == front;
  }

  lemma TranslatedLast(c: Cluster, rs: seq<HTTPRoute>, last: HTTPRoute)
    ensures TranslatedRoutes(c, rs + [last]) == TranslatedRoutes(c, rs) + if Expanded(c, last).routes != [] then 1 else 0
  {
    assert (rs + [last])[..|rs|] == rs;
  }

  /** The number of attached routes that a listener reports: those of the lister that attach to it and compile to anything;
      none unless it is an HTTP or HTTPS listener. */
  lemma AttachedRoutesExactly(c: Cluster, gw: Gateway, routes: seq<HTTPRoute>, index: Index, x: XdsResources,
                              order: seq<int32>, i: nat)
    requires Indexes(c, gw, routes, index) && IsBuild(c, gw, index, x, order) && NamesDetermine(gw)
    requires i < |gw.listeners|
    ensures |x.statuses| == |gw.listeners|
    ensures var l := gw.listeners[i];
      x.statuses[i] == ListenerStatus(
        l.name,
        if l.protocol == HTTP || l.protocol == HTTPS then |Places(routes, AttachesAndCompiles(c, gw, l.name))| else 0)
  {
    var l := gw.listeners[i];
    assert Lookup(index, l.name) == Attached(c, gw, routes, l.name);
    CompilingCounted(c, gw, routes, l.name);
  }

  // ----- what routes are told -----

  /** The route is translated: it attaches to some HTTP or HTTPS listener of the Gateway. */
  predicate IsTranslated(c: Cluster, gw: Gateway, hr: HTTPRoute) {
    exists l :: l in gw.listeners && Routed(l) && Attaches(c, gw, hr, l.name)
  }

  lemma LinkedExactly(c: Cluster, gw: Gateway, routes: seq<HTTPRoute>, index: Index, a: Link)
    requires Indexes(c, gw, routes, index)
    ensures Linked(gw, index, a) <==>
            && a.listener in gw.listeners && Routed(a.listener)
            && a.route in routes && Attaches(c, gw, a.route, a.listener.name)
  {
    assert Lookup(index, a.listener.name) == Attached(c, gw, routes, a.listener.name);
    AttachedExactly(c, gw, routes, a.listener.name, a.route);
  }

  /** The ports visited so far translate the route when one of them has a listener it attaches to. */
  predicate TranslatedOn(c: Cluster, gw: Gateway, order: seq<int32>, hr: HTTPRoute) {
    exists l :: l in gw.listeners && l.port in order && Routed(l) && Attaches(c, gw, hr, l.name)
  }

  lemma TranslatesOnPort(c: Cluster, gw: Gateway, routes: seq<HTTPRoute>, index: Index, port: int32, hr: HTTPRoute)
    requires Indexes(c, gw, routes, index) && hr in routes
    ensures Translates(LinksOn(gw, index, port), hr) <==> TranslatedOn(c, gw, [port], hr)
  {
    if a :| a in LinksOn(gw, index, port) && a.route == hr {
      LinksOnExactly(gw, index, port, a);
      LinkedExactly(c, gw, routes, index, a);
    }
    if l :| l in gw.listeners && l.port == port && Routed(l) && Attaches(c, gw, hr, l.name) {
      LinkedExactly(c, gw, routes, index, Link(l, hr));
      LinksOnExactly(gw, index, port, Link(l, hr));
    }
  }

  lemma {:induction false} MergedAlongAt(c: Cluster, gw: Gateway, routes: seq<HTTPRoute>, index: Index,
                                         m: ParentStatuses, order: seq<int32>, hr: HTTPRoute)
    requires Indexes(c, gw, routes, index) && DistinctKeys(routes) && hr in routes
    ensures StatusesAt(MergedAlong(c, gw, index, m, order), KeyOf(hr)) ==
              if TranslatedOn(c, gw, order, hr) then Merged(StatusesAt(m, KeyOf(hr)), Expanded(c, hr).condition)
              else StatusesAt(m, KeyOf(hr))
  {
    if order != [] {
      var front, last := order[..|order| - 1], order[|order| - 1];
      MergedAlongAt(c, gw, routes, index, m, front, hr);
      MergedOnPort(c, gw, routes, index, MergedAlong(c, gw, index, m, front), last, hr);
      TranslatedOneMorePort(c, gw, front, last, hr);
      assert order == front + [last];
      TranslationCondition(c, hr, |hr.rules|, 0);
      MergedTwice(StatusesAt(m, KeyOf(hr)), Expanded(c, hr).condition);
    }
  }

  lemma TranslatedOneMorePort(c: Cluster, gw: Gateway, order: seq<int32>, port: int32, hr: HTTPRoute)
    ensures TranslatedOn(c, gw, order + [port], hr) <==> TranslatedOn(c, gw, order, hr) || TranslatedOn(c, gw, [port], hr)
  {
    assert forall p :: p in order + [port] <==> p in order || p in [port];
  }

  /** What building one port does to the statuses of a route. */
  lemma MergedOnPort(c: Cluster, gw: Gateway, routes: seq<HTTPRoute>, index: Index, m: ParentStatuses, port: int32,
                     hr: HTTPRoute)
    requires Indexes(c, gw, routes, index) && DistinctKeys(routes) && hr in routes
    ensures StatusesAt(MergedBy(c, m, LinksOn(gw, index, port)), KeyOf(hr)) ==
              if TranslatedOn(c, gw, [port], hr) then Merged(StatusesAt(m, KeyOf(hr)), Expanded(c, hr).condition)
              else StatusesAt(m, KeyOf(hr))
  {
    var atts := LinksOn(gw, index, port);
    forall a | a in atts && KeyOf(a.route) == KeyOf(hr) ensures a.route == hr {
      LinksOnExactly(gw, index, port, a);
      LinkedExactly(c, gw, routes, index, a);
    }
    MergedAt(c, m, atts, hr);
    TranslatesOnPort(c, gw, routes, index, port, hr);
  }

  /** What a route is told about one of its references to the Gateway, whatever the order of ports and listeners: it is
      Accepted exactly when some listener takes the reference, and it hears how its references resolve exactly when it
      is accepted there and some HTTP or HTTPS listener of the Gateway takes it. */
  lemma ReportedExactly(c: Cluster, gw: Gateway, routes: seq<HTTPRoute>, index: Index, gathered: ParentStatuses,
                        order: seq<int32>, hr: HTTPRoute, ref: ParentReference)
    returns (st: RouteParentStatus)
    requires Indexes(c, gw, routes, index) && DistinctKeys(routes) && PortOrder(gw, order)
    requires Records(c, gw, Referring(gw, routes), gathered) && hr in Referring(gw, routes) && hr in routes
    requires ref in hr.parentRefs && TargetsGateway(gw, hr, ref)
    ensures st in StatusesAt(MergedAlong(c, gw, index, gathered, order), KeyOf(hr)) && st.parentRef == ref
    ensures IsStatusConditionTrue(st.conditions, Accepted) <==>
            exists l :: l in gw.listeners && Attachment.Accepts(c, gw, hr, ref, l)
    ensures FindCondition(st.conditions, ResolvedRefs) ==
              if IsStatusConditionTrue(st.conditions, Accepted) && IsTranslated(c, gw, hr)
              then Some(Expanded(c, hr).condition) else Some(RESOLVED_REFS_UNSET)
  {
    MergedAlongAt(c, gw, routes, index, gathered, order, hr);
    AcceptedExactly(c, gw, hr, ref);
    var before, was := StatusesAt(gathered, KeyOf(hr)), StatusOf(c, gw, hr, ref);
    assert TranslatedOn(c, gw, order, hr) <==> IsTranslated(c, gw, hr);
    st := was;
    if IsTranslated(c, gw, hr) {
      var k :| 0 <= k < |before| && before[k] == was;
      TranslationCondition(c, hr, |hr.rules|, 0);
      WithConditionExactly(was, Expanded(c, hr).condition);
      st := Merged(before, Expanded(c, hr).condition)[k];
    }
  }

  /** Every port that Envoy listens on is exposed by the proxy's service, once. */
  lemma EnvoyPortsExposed(c: Cluster, gw: Gateway, index: Index, els: seq<EnvoyListener>, el: EnvoyListener)
    requires ListenersFor(c, gw, index, els) && el in els
    ensures Manifests.Exposes(Manifests.ServicePorts(gw.listeners), el.port)
  {
    var ls := OnPort(gw.listeners, el.port);
    var i := ChainOwner(ls, |ls|, 0);
    OnPortExactly(gw.listeners, el.port, ls[i]);
    Manifests.ServicePortsExactly(gw.listeners);
    assert Manifests.ListensOn(gw.listeners, el.port);
  }
}
