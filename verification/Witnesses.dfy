/** Small Gateways for the examples: which of their routes attach, and what their chains serve. */
module Witnesses {
  import opened Text
  import opened GatewayApi
  import opened EnvoyApi
  import opened Hostnames
  import opened Attachment
  import opened ListenerConflicts
  import opened VirtualHosts
  import opened PortBuild
  import opened XdsBuild
  import opened XdsProperties

  /** A listener that takes the routes of its own namespace. */
  function PlainListener(name: string, protocol: Protocol, hostname: Option<string>, port: int32): Listener {
    Listener(name, hostname, port, protocol, None)
  }

  function ParentNamed(gateway: string): ParentReference { ParentReference(None, gateway, None, None) }

  /** The route refers to the Gateway of its namespace as a whole. */
  predicate RefersToAll(gw: Gateway, hr: HTTPRoute) {
    hr.namespace == gw.namespace && hr.parentRefs == [ParentNamed(gw.name)]
  }

  /** Such a route attaches to a plain listener exactly when their hostnames allow. */
  lemma AttachesByHostname(c: Cluster, gw: Gateway, hr: HTTPRoute, l: Listener)
    requires RefersToAll(gw, hr) && l in gw.listeners && NamesDetermine(gw) && l.allowedRoutes.None?
    ensures Attaches(c, gw, hr, l.name) <==> HostnameAllows(l, hr.hostnames)
  {
    var ref := ParentNamed(gw.name);
    assert ref in hr.parentRefs && TargetsGateway(gw, hr, ref);
    assert Attachment.Accepts(c, gw, hr, ref, l) <==> HostnameAllows(l, hr.hostnames);
  }

  lemma AttachesToNone(c: Cluster, gw: Gateway, hr: HTTPRoute, name: string)
    requires forall l :: l in gw.listeners ==> l.name != name
    ensures !Attaches(c, gw, hr, name)
  {
  }

  lemma {:induction false} AttachedAll(c: Cluster, gw: Gateway, routes: seq<HTTPRoute>, name: string)
    requires forall hr :: hr in routes ==> Attaches(c, gw, hr, name)
    ensures Attached(c, gw, routes, name) == routes
  {
    if routes != [] {
      AttachedAll(c, gw, routes[..|routes| - 1], name);
      assert routes == routes[..|routes| - 1] + [routes[|routes| - 1]];
    }
  }

  lemma {:induction false} AttachedNone(c: Cluster, gw: Gateway, routes: seq<HTTPRoute>, name: string)
    requires forall hr :: hr in routes ==> !Attaches(c, gw, hr, name)
    ensures Attached(c, gw, routes, name) == []
  {
    if routes != [] {
      assert routes[|routes| - 1] in routes;
      AttachedNone(c, gw, routes[..|routes| - 1], name);
    }
  }

  /** The domain of a route with one hostname. */
  lemma OneHostname(l: Listener, hostname: string)
    requires HostnameOf(l) != "" && IsHostnameSubset(hostname, HostnameOf(l))
    ensures HostnameAllows(l, [hostname])
    ensures Intersecting(l, [hostname]) == multiset{MostSpecific(hostname, HostnameOf(l))}
  {
    assert hostname in [hostname] && [hostname][..0] == [];
    assert Permitted([hostname], HostnameOf(l)) == {MostSpecific(hostname, HostnameOf(l))};
  }

  // ----- one listener -----

  /** A Gateway with one plain HTTP listener that all the routes attach to. */
  ghost predicate TakesAll(gw: Gateway, l: Listener, routes: seq<HTTPRoute>) {
    && gw.listeners == [l] && l.protocol == HTTP && l.allowedRoutes.None?
    && forall hr :: hr in routes ==> RefersToAll(gw, hr) && HostnameAllows(l, hr.hostnames)
  }

  lemma TakesAllIndexes(c: Cluster, gw: Gateway, l: Listener, routes: seq<HTTPRoute>)
    requires TakesAll(gw, l, routes)
    ensures Indexes(c, gw, routes, map[l.name := routes])
  {
    assert l in gw.listeners && NamesDetermine(gw);
    forall name ensures Lookup(map[l.name := routes], name) == Attached(c, gw, routes, name) {
      if name == l.name {
        forall hr | hr in routes ensures Attaches(c, gw, hr, name) { AttachesByHostname(c, gw, hr, l); }
        AttachedAll(c, gw, routes, name);
      } else {
        forall hr | hr in routes ensures !Attaches(c, gw, hr, name) { AttachesToNone(c, gw, hr, name); }
        AttachedNone(c, gw, routes, name);
      }
    }
  }

  lemma OneOnPort(l: Listener, port: int32)
    ensures OnPort([l], port) == if l.port == port then [l] else []
  {
    assert [l][..0] == [];
  }

  /** Its chain serves the routes in order. */
  lemma TakesAllChain(c: Cluster, gw: Gateway, l: Listener, routes: seq<HTTPRoute>, els: seq<EnvoyListener>,
                      el: EnvoyListener, chain: FilterChain)
    requires TakesAll(gw, l, routes) && ListenersFor(c, gw, map[l.name := routes], els)
    requires el in els && chain in el.filterChains
    ensures ServesExactly(c, gw.name, el.port, OwnLinks(l, routes), chain.virtualHosts)
  {
    var index := map[l.name := routes];
    var k := EmittedChainOwner(c, gw, index, el, chain);
    OneOnPort(l, el.port);
    LinksOfOne(l, index);
  }

  lemma LinksOfOne(l: Listener, index: Index)
    ensures AttachmentsUpTo([l], index, 1, 0) == OwnLinks(l, RoutesOn(l, index))
  {
    OwnLinksFollow([l], index, 0, |RoutesOn(l, index)|);
    assert RoutesOn(l, index)[..|RoutesOn(l, index)|] == RoutesOn(l, index);
  }

  /** It can be built when its routes can. */
  lemma TakesAllBuildable(c: Cluster, gw: Gateway, l: Listener, routes: seq<HTTPRoute>)
    requires TakesAll(gw, l, routes) && forall hr :: hr in routes ==> RouteBuildable(c, hr)
    ensures BuildableGateway(c, gw, map[l.name := routes])
  {
    assert !NameInConflict(gw.listeners, l.name);
  }

  lemma OwnLinksExactly(l: Listener, rs: seq<HTTPRoute>, a: Link)
    ensures a in OwnLinks(l, rs) <==> a.listener == l && a.route in rs
  {
    if rs != [] {
      OwnLinksExactly(l, rs[..|rs| - 1], a);
      assert rs == rs[..|rs| - 1] + [rs[|rs| - 1]];
    }
  }

  // ----- two routes -----

  lemma TwoTaken(c: Cluster, gw: Gateway, l: Listener, a: HTTPRoute, b: HTTPRoute)
    requires TakesAll(gw, l, [a, b])
    ensures Indexes(c, gw, [a, b], map[l.name := [a, b]]) && Attaches(c, gw, a, l.name) && Attaches(c, gw, b, l.name)
    ensures RouteBuildable(c, a) && RouteBuildable(c, b) ==> BuildableGateway(c, gw, map[l.name := [a, b]])
  {
    assert l in gw.listeners && NamesDetermine(gw);
    TakesAllIndexes(c, gw, l, [a, b]);
    AttachesByHostname(c, gw, a, l);
    AttachesByHostname(c, gw, b, l);
    if RouteBuildable(c, a) && RouteBuildable(c, b) { TakesAllBuildable(c, gw, l, [a, b]); }
  }

  lemma TwoLinks(l: Listener, a: HTTPRoute, b: HTTPRoute)
    ensures OwnLinks(l, [a, b]) == [Link(l, a), Link(l, b)]
  {
    assert OwnLinks(l, [a]) == [Link(l, a)] by { assert [a][..0] == []; }
    var rs := [a, b];
    assert rs[..|rs| - 1] == [a];
  }

  // ----- two listeners without routes -----

  function TwoHttpListeners(n: string, g: string, port: int32, h1: string, h2: string): Gateway {
    Gateway(n, g, [PlainListener("l1", HTTP, Some(h1), port), PlainListener("l2", HTTP, Some(h2), port)])
  }

  lemma TwoOnPort(l1: Listener, l2: Listener, port: int32)
    requires l1.port == l2.port
    ensures OnPort([l1, l2], port) == if l1.port == port then [l1, l2] else []
  {
    OneOnPort(l1, port);
    assert [l1, l2][..1] == [l1];
  }

  /** Two HTTP listeners with different hostnames are valid and can be built, but the two chains of their port ask for the
      same server names, namely none. */
  lemma NamelessChainsClash(c: Cluster, n: string, g: string, port: int32, h1: string, h2: string)
    requires h1 != h2
    ensures var gw := TwoHttpListeners(n, g, port, h1, h2);
      && Indexes(c, gw, [], map[]) && BuildableGateway(c, gw, map[])
      && forall els: seq<EnvoyListener>, el: EnvoyListener :: ListenersFor(c, gw, map[], els) && el in els ==>
           !ServerNamesDistinct(el.filterChains)
  {
    var gw := TwoHttpListeners(n, g, port, h1, h2);
    DifferentHostnamesValid(gw, gw.listeners[0], gw.listeners[1]);
    forall els: seq<EnvoyListener>, el: EnvoyListener | ListenersFor(c, gw, map[], els) && el in els
      ensures !ServerNamesDistinct(el.filterChains)
    {
      NamelessPair(c, gw, gw.listeners[0], gw.listeners[1], map[], el);
    }
  }

  lemma DifferentHostnamesValid(gw: Gateway, l1: Listener, l2: Listener)
    requires gw.listeners == [l1, l2] && HostnameOf(l1) != HostnameOf(l2)
    requires l1.protocol == HTTP && l2.protocol == HTTP && l1.allowedRoutes.None? && l2.allowedRoutes.None?
    ensures ListenersValid(gw)
  {
    assert !InConflict(gw.listeners, 0) && !InConflict(gw.listeners, 1);
  }

  lemma NamelessPair(c: Cluster, gw: Gateway, l1: Listener, l2: Listener, index: Index, el: EnvoyListener)
    requires gw.listeners == [l1, l2] && l1.port == l2.port && Nameless(l1) && Nameless(l2)
    requires ListenersValid(gw) && ForPort(c, gw, index, el)
    ensures !ServerNamesDistinct(el.filterChains)
  {
    var k := EmittedChainOwner(c, gw, index, el, el.filterChains[0]);
    TwoOnPort(l1, l2, el.port);
    ServerNamesDistinctExactly(c, gw, index, el);
    var ls := OnPort(gw.listeners, el.port);
    assert Nameless(ls[0]) && Nameless(ls[1]);
  }

  /** Two HTTP listeners that share a hostname make the build panic, and nothing else. */
  lemma ConflictPanics(c: Cluster, n: string, g: string, port: int32, h: string)
    ensures var gw := TwoHttpListeners(n, g, port, h, h);
      && Indexes(c, gw, [], map[]) && !BuildableGateway(c, gw, map[])
      && forall outcome :: Excuses(c, gw, map[], outcome) ==> outcome == Panicked
  {
    var gw := TwoHttpListeners(n, g, port, h, h);
    var ls := gw.listeners;
    assert SameHostname(ls[0], ls[1]) && InConflict(ls, 0);
    assert ls[0] in ls && NameInConflict(ls, ls[0].name);
  }
}
