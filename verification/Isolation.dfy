/** When the filter chain of a listener serves the routes of that listener only. */
module Isolation {
  import opened Text
  import opened GatewayApi
  import opened EnvoyApi
  import opened Names
  import opened RouteTranslation
  import opened RouteProperties
  import opened Hostnames
  import opened Attachment
  import opened ListenerConflicts
  import opened VirtualHosts
  import opened XdsBuild
  import opened XdsProperties
  import opened Translator
  import opened Witnesses

  // ----- lists of attachments -----

  /** On every domain all serves only what own serves there. */
  ghost predicate Isolated(c: Cluster, all: seq<Link>, own: seq<Link>) {
    forall d, r :: r in HostRoutes(c, all, d) ==> r in HostRoutes(c, own, d)
  }

  /** Whatever the attachment brings to a domain, own serves there anyway. */
  ghost predicate Repeats(c: Cluster, a: Link, own: seq<Link>) {
    forall d, r :: d in DomainsOf(a) && r in Expanded(c, a.route).routes ==> r in HostRoutes(c, own, d)
  }

  lemma IsolatedListExactly(c: Cluster, before: seq<Link>, own: seq<Link>)
    ensures Isolated(c, before + own, own) <==> forall a :: a in before ==> Repeats(c, a, own)
  {
    forall d { HostRoutesAppend(c, before, own, d); }
    if forall a :: a in before ==> Repeats(c, a, own) {
      forall d, r | r in HostRoutes(c, before, d) ensures r in HostRoutes(c, own, d) {
        var a := HostRouteOrigin(c, before, d, r);
      }
    }
    if Isolated(c, before + own, own) {
      forall a, d, r | a in before && d in DomainsOf(a) && r in Expanded(c, a.route).routes
        ensures r in HostRoutes(c, own, d)
      {
        AttachmentContributes(c, before, a, d, r);
        assert r in HostRoutes(c, before + own, d);
      }
    }
  }

  // ----- the chains of a Gateway -----

  /** The attachments of listener k of a port. */
  function OwnOf(ls: seq<Listener>, index: Index, k: nat): seq<Link>
    requires k < |ls|
  {
    OwnLinks(ls[k], RoutesOn(ls[k], index))
  }

  /** The chain of listener k serves no routes but the listener's own. */
  ghost predicate IsolatedChain(c: Cluster, ls: seq<Listener>, index: Index, k: nat)
    requires k < |ls|
  {
    Isolated(c, AttachmentsUpTo(ls, index, k + 1, 0), OwnOf(ls, index, k))
  }

  /** The route attaches to the listener, which is before listener k on the port. */
  predicate AttachedBefore(c: Cluster, gw: Gateway, ls: seq<Listener>, k: nat, l: Listener, hr: HTTPRoute)
    requires k <= |ls|
  {
    l in ls[..k] && Routed(l) && Attaches(c, gw, hr, l.name)
  }

  /** A chain serves no routes but its listener's own exactly when every route attached to an earlier HTTP or HTTPS
      listener of the port only repeats what the listener serves. */
  lemma IsolatedExactly(c: Cluster, gw: Gateway, routes: seq<HTTPRoute>, index: Index, port: int32, k: nat)
    requires Indexes(c, gw, routes, index) && k < |OnPort(gw.listeners, port)|
    ensures var ls := OnPort(gw.listeners, port);
      IsolatedChain(c, ls, index, k) <==>
      forall l, hr :: hr in routes && AttachedBefore(c, gw, ls, k, l, hr) ==> Repeats(c, Link(l, hr), OwnOf(ls, index, k))
  {
    var ls := OnPort(gw.listeners, port);
    var before, own := AttachmentsUpTo(ls, index, k, 0), OwnOf(ls, index, k);
    OwnLinksFollow(ls, index, k, |RoutesOn(ls[k], index)|);
    assert RoutesOn(ls[k], index)[..|RoutesOn(ls[k], index)|] == RoutesOn(ls[k], index);
    assert AttachmentsUpTo(ls, index, k + 1, 0) == before + own;
    IsolatedListExactly(c, before, own);
    forall l, hr ensures Link(l, hr) in before <==> hr in routes && AttachedBefore(c, gw, ls, k, l, hr) {
      BeforeExactly(c, gw, routes, index, ls, k, l, hr);
    }
    if forall l, hr :: hr in routes && AttachedBefore(c, gw, ls, k, l, hr) ==> Repeats(c, Link(l, hr), own) {
      forall a | a in before ensures Repeats(c, a, own) { assert a == Link(a.listener, a.route); }
    }
  }

  lemma BeforeExactly(c: Cluster, gw: Gateway, routes: seq<HTTPRoute>, index: Index, ls: seq<Listener>, k: nat,
                      l: Listener, hr: HTTPRoute)
    requires Indexes(c, gw, routes, index) && k <= |ls|
    ensures Link(l, hr) in AttachmentsUpTo(ls, index, k, 0) <==> hr in routes && AttachedBefore(c, gw, ls, k, l, hr)
  {
    AttachmentsExactly(ls, index, k, 0, Link(l, hr));
    if Routed(l) { AttachedIsListed(c, gw, routes, index, l, hr); }
  }

  /** The route was compiled from an HTTPRoute that attaches to the listener, on one of its domains. */
  predicate OwnRoute(c: Cluster, gw: Gateway, routes: seq<HTTPRoute>, l: Listener, d: string, r: Route) {
    exists hr :: hr in routes && Attaches(c, gw, hr, l.name) && d in DomainsOf(Link(l, hr)) && r in Expanded(c, hr).routes
  }

  lemma OwnRouteExactly(c: Cluster, gw: Gateway, routes: seq<HTTPRoute>, index: Index, ls: seq<Listener>, k: nat,
                        d: string, r: Route)
    requires Indexes(c, gw, routes, index) && k < |ls| && Routed(ls[k])
    ensures r in HostRoutes(c, OwnOf(ls, index, k), d) <==> OwnRoute(c, gw, routes, ls[k], d, r)
  {
    var own := OwnOf(ls, index, k);
    if r in HostRoutes(c, own, d) {
      var a := HostRouteOrigin(c, own, d, r);
      OwnLinksExactly(ls[k], RoutesOn(ls[k], index), a);
      AttachedIsListed(c, gw, routes, index, ls[k], a.route);
    }
    if OwnRoute(c, gw, routes, ls[k], d, r) {
      var hr :| hr in routes && Attaches(c, gw, hr, ls[k].name) && d in DomainsOf(Link(ls[k], hr))
        && r in Expanded(c, hr).routes;
      AttachedIsListed(c, gw, routes, index, ls[k], hr);
      OwnLinksExactly(ls[k], RoutesOn(ls[k], index), Link(ls[k], hr));
      AttachmentContributes(c, own, Link(ls[k], hr), d, r);
    }
  }

  /** What isolation means for the emitted chain: all its routes are the listener's own. */
  lemma IsolationMeaning(c: Cluster, gw: Gateway, routes: seq<HTTPRoute>, index: Index, port: int, ls: seq<Listener>,
                         chain: FilterChain, k: nat)
    requires Indexes(c, gw, routes, index) && IsChainOf(c, gw, port, ls, index, chain, k)
    ensures IsolatedChain(c, ls, index, k) <==>
            forall vh, r :: vh in chain.virtualHosts && r in vh.routes ==> OwnRoute(c, gw, routes, ls[k], vh.domain, r)
  {
    var all, own := AttachmentsUpTo(ls, index, k + 1, 0), OwnOf(ls, index, k);
    forall d, r { OwnRouteExactly(c, gw, routes, index, ls, k, d, r); }
    forall vh, r | vh in chain.virtualHosts ensures r in vh.routes <==> r in HostRoutes(c, all, vh.domain) {
      assert r in vh.routes <==> r in multiset(vh.routes);
    }
    forall d, r | r in HostRoutes(c, all, d) ensures exists vh :: vh in chain.virtualHosts && vh.domain == d {
      HostRoutesServed(c, all, d);
    }
  }

  // ----- on the routes themselves -----

  /** No two HTTPRoutes share the text "namespace-name" that their Envoy routes are named after. */
  predicate NamesApart(routes: seq<HTTPRoute>) {
    forall x, y :: x in routes && y in routes && x.namespace + "-" + x.name == y.namespace + "-" + y.name ==> x == y
  }

  /** The route compiles to nothing, or attaches to listener k as well, on all the domains it has on l. */
  predicate SharedWith(c: Cluster, gw: Gateway, l: Listener, own: Listener, hr: HTTPRoute) {
    || Expanded(c, hr).routes == []
    || (Routed(own) && Attaches(c, gw, hr, own.name)
        && forall d :: d in DomainsOf(Link(l, hr)) ==> d in DomainsOf(Link(own, hr)))
  }

  /** A route that listener k shares only repeats what is served; when names tell HTTPRoutes apart no other does. */
  lemma RepeatsExactly(c: Cluster, gw: Gateway, routes: seq<HTTPRoute>, index: Index, ls: seq<Listener>, k: nat,
                       l: Listener, hr: HTTPRoute)
    requires Indexes(c, gw, routes, index) && NamesDetermine(gw) && k < |ls|
    requires l in gw.listeners && hr in routes && Attaches(c, gw, hr, l.name)
    ensures SharedWith(c, gw, l, ls[k], hr) ==> Repeats(c, Link(l, hr), OwnOf(ls, index, k))
    ensures NamesApart(routes) && Repeats(c, Link(l, hr), OwnOf(ls, index, k)) ==> SharedWith(c, gw, l, ls[k], hr)
  {
    var own := OwnOf(ls, index, k);
    if SharedWith(c, gw, l, ls[k], hr) && Expanded(c, hr).routes != [] {
      AttachedIsListed(c, gw, routes, index, ls[k], hr);
      OwnLinksExactly(ls[k], RoutesOn(ls[k], index), Link(ls[k], hr));
      forall d, r | d in DomainsOf(Link(l, hr)) && r in Expanded(c, hr).routes ensures r in HostRoutes(c, own, d) {
        AttachmentContributes(c, own, Link(ls[k], hr), d, r);
      }
    }
    if NamesApart(routes) && Repeats(c, Link(l, hr), own) && Expanded(c, hr).routes != [] {
      var r := Expanded(c, hr).routes[0];
      AttachesAllows(c, gw, l, hr);
      AcceptanceIsExposure(l, hr.hostnames);
      var some :| some in DomainsOf(Link(l, hr));
      forall d | d in DomainsOf(Link(l, hr))
        ensures Routed(ls[k]) && Attaches(c, gw, hr, ls[k].name) && d in DomainsOf(Link(ls[k], hr))
      {
        OwnerOfRoute(c, gw, routes, index, ls, k, hr, d, r);
      }
    }
  }

  /** Whose route r is can be told from its name. */
  lemma OwnerOfRoute(c: Cluster, gw: Gateway, routes: seq<HTTPRoute>, index: Index, ls: seq<Listener>, k: nat,
                     hr: HTTPRoute, d: string, r: Route)
    requires Indexes(c, gw, routes, index) && k < |ls| && NamesApart(routes)
    requires hr in routes && r in Expanded(c, hr).routes && r in HostRoutes(c, OwnOf(ls, index, k), d)
    ensures Routed(ls[k]) && Attaches(c, gw, hr, ls[k].name) && d in DomainsOf(Link(ls[k], hr))
  {
    var a := HostRouteOrigin(c, OwnOf(ls, index, k), d, r);
    OwnLinksExactly(ls[k], RoutesOn(ls[k], index), a);
    AttachedIsListed(c, gw, routes, index, ls[k], a.route);
    var i, j := RouteOrigin(c, hr, |hr.rules|, 0, r);
    var x, y := RouteOrigin(c, a.route, |a.route.rules|, 0, r);
    CompiledName(c, hr, i, j);
    CompiledName(c, a.route, x, y);
    RouteNamesCoincide(hr.namespace, hr.name, i, j, a.route.namespace, a.route.name, x, y);
  }

  /** A chain serves no routes but its listener's own if the listener shares every route attached to an earlier one; and
      only then, when names tell HTTPRoutes apart. */
  lemma SharedExactly(c: Cluster, gw: Gateway, routes: seq<HTTPRoute>, index: Index, port: int32, k: nat)
    requires Indexes(c, gw, routes, index) && NamesDetermine(gw) && k < |OnPort(gw.listeners, port)|
    ensures var ls := OnPort(gw.listeners, port);
      var shared := forall l, hr :: hr in routes && AttachedBefore(c, gw, ls, k, l, hr) ==> SharedWith(c, gw, l, ls[k], hr);
      && (shared ==> IsolatedChain(c, ls, index, k))
      && (NamesApart(routes) && IsolatedChain(c, ls, index, k) ==> shared)
  {
    var ls := OnPort(gw.listeners, port);
    IsolatedExactly(c, gw, routes, index, port, k);
    forall l, hr | hr in routes && AttachedBefore(c, gw, ls, k, l, hr)
      ensures SharedWith(c, gw, l, ls[k], hr) ==> Repeats(c, Link(l, hr), OwnOf(ls, index, k))
      ensures NamesApart(routes) && Repeats(c, Link(l, hr), OwnOf(ls, index, k)) ==> SharedWith(c, gw, l, ls[k], hr)
    {
      var i :| 0 <= i < k && ls[i] == l;
      OnPortExactly(gw.listeners, port, ls[i]);
      RepeatsExactly(c, gw, routes, index, ls, k, l, hr);
    }
  }

  // ----- two listeners -----

  /** Two plain HTTPS listeners of one port with different hostnames. */
  predicate TwoListeners(gw: Gateway, l1: Listener, l2: Listener) {
    && gw.listeners == [l1, l2] && l1.name != l2.name && l1.port == l2.port
    && l1.protocol == HTTPS && l2.protocol == HTTPS && l1.allowedRoutes.None? && l2.allowedRoutes.None?
    && l1.hostname.Some? && l2.hostname.Some? && l1.hostname != l2.hostname
  }

  lemma TwoListenersValid(gw: Gateway, l1: Listener, l2: Listener)
    requires TwoListeners(gw, l1, l2)
    ensures ListenersValid(gw) && NamesDetermine(gw)
  {
    var ls := gw.listeners;
    assert !InConflict(ls, 0) && !InConflict(ls, 1);
  }

  function TakenBy(l: Listener, hr: HTTPRoute): seq<HTTPRoute> { if HostnameAllows(l, hr.hostnames) then [hr] else [] }

  function IndexOfOne(l1: Listener, l2: Listener, hr: HTTPRoute): Index {
    map[l1.name := TakenBy(l1, hr), l2.name := TakenBy(l2, hr)]
  }

  /** The only route of such a Gateway attaches where its hostnames allow. */
  lemma OneRouteIndexes(c: Cluster, gw: Gateway, l1: Listener, l2: Listener, hr: HTTPRoute)
    requires TwoListeners(gw, l1, l2) && RefersToAll(gw, hr)
    ensures Indexes(c, gw, [hr], IndexOfOne(l1, l2, hr))
    ensures forall l :: l in gw.listeners ==> (Attaches(c, gw, hr, l.name) <==> HostnameAllows(l, hr.hostnames))
  {
    TwoListenersValid(gw, l1, l2);
    AttachesByHostname(c, gw, hr, l1);
    AttachesByHostname(c, gw, hr, l2);
    forall name ensures Lookup(IndexOfOne(l1, l2, hr), name) == Attached(c, gw, [hr], name) {
      assert [hr][..0] == [];
      if name != l1.name && name != l2.name { AttachesToNone(c, gw, hr, name); }
    }
  }

  /** Isolation fails: a route that only the first listener takes is served, with all its routes, by the chain of the
      second. */
  lemma SiblingServed(c: Cluster, gw: Gateway, l1: Listener, l2: Listener, hr: HTTPRoute, els: seq<EnvoyListener>,
                      el: EnvoyListener, chain: FilterChain)
    returns (vh: VirtualHost)
    requires TwoListeners(gw, l1, l2) && RefersToAll(gw, hr)
    requires HostnameAllows(l1, hr.hostnames) && !HostnameAllows(l2, hr.hostnames) && Expanded(c, hr).routes != []
    requires ListenersFor(c, gw, IndexOfOne(l1, l2, hr), els)
    requires el in els && chain in el.filterChains && chain.serverNames == l2.hostname
    ensures ListenersValid(gw) && Indexes(c, gw, [hr], IndexOfOne(l1, l2, hr)) && !Attaches(c, gw, hr, l2.name)
    ensures !IsolatedChain(c, [l1, l2], IndexOfOne(l1, l2, hr), 1)
    ensures vh in chain.virtualHosts && vh.domain in DomainsOf(Link(l1, hr))
    ensures forall r :: r in Expanded(c, hr).routes ==> r in vh.routes
  {
    var index, own := IndexOfOne(l1, l2, hr), Link(l1, hr);
    TwoListenersValid(gw, l1, l2);
    OneRouteIndexes(c, gw, l1, l2, hr);
    assert l2 in gw.listeners;
    SiblingNotIsolated(c, l1, l2, hr);
    SiblingChain(c, gw, l1, l2, index, el, chain);
    SiblingLinks(l1, l2, hr);
    vh := AttachedIsServed(c, gw.name, el.port, [own], chain.virtualHosts, own);
  }

  lemma SiblingLinks(l1: Listener, l2: Listener, hr: HTTPRoute)
    requires l1.name != l2.name && Routed(l1)
    requires HostnameAllows(l1, hr.hostnames) && !HostnameAllows(l2, hr.hostnames)
    ensures AttachmentsUpTo([l1, l2], IndexOfOne(l1, l2, hr), 2, 0) == [Link(l1, hr)]
    ensures OwnOf([l1, l2], IndexOfOne(l1, l2, hr), 1) == []
  {
    var ls, index := [l1, l2], IndexOfOne(l1, l2, hr);
    assert RoutesOn(ls[0], index) == [hr] && RoutesOn(ls[1], index) == [];
    assert AttachmentsUpTo(ls, index, 0, 1) == [Link(l1, hr)];
    assert AttachmentsUpTo(ls, index, 1, 0) == AttachmentsUpTo(ls, index, 0, 1);
  }

  lemma SiblingNotIsolated(c: Cluster, l1: Listener, l2: Listener, hr: HTTPRoute)
    requires l1.name != l2.name && Routed(l1) && Expanded(c, hr).routes != []
    requires HostnameAllows(l1, hr.hostnames) && !HostnameAllows(l2, hr.hostnames)
    ensures !IsolatedChain(c, [l1, l2], IndexOfOne(l1, l2, hr), 1)
  {
    SiblingLinks(l1, l2, hr);
    AcceptanceIsExposure(l1, hr.hostnames);
    var own := Link(l1, hr);
    var d :| d in DomainsOf(own);
    AttachmentContributes(c, [own], own, d, Expanded(c, hr).routes[0]);
  }

  /** The chain with the second listener's server name serves the attachments of both. */
  lemma SiblingChain(c: Cluster, gw: Gateway, l1: Listener, l2: Listener, index: Index, el: EnvoyListener,
                     chain: FilterChain)
    requires TwoListeners(gw, l1, l2) && ForPort(c, gw, index, el)
    requires chain in el.filterChains && chain.serverNames == l2.hostname
    ensures ServesExactly(c, gw.name, el.port, AttachmentsUpTo([l1, l2], index, 2, 0), chain.virtualHosts)
  {
    var k := EmittedChainOwner(c, gw, index, el, chain);
    OnPortExactly(gw.listeners, el.port, OnPort(gw.listeners, el.port)[k]);
    TwoOnPort(l1, l2, el.port);
  }

  /** For instance with the hostnames "a.d" and "b.d". */
  lemma SiblingsExist(port: int32, d: string)
    ensures var l1 := PlainListener("l1", HTTPS, Some("a." + d), port);
      var l2 := PlainListener("l2", HTTPS, Some("b." + d), port);
      HostnameAllows(l1, ["a." + d]) && !HostnameAllows(l2, ["a." + d]) && l1.hostname != l2.hostname
  {
    assert ("a." + d)[0] == 'a' && ("b." + d)[0] == 'b';
    assert "a." + d in ["a." + d];
  }

  /** Isolation is not about numbers: a route that attaches to both listeners, on the same domains, is served twice by the
      chain of the second, which serves nothing else. */
  lemma ServedTwiceIsIsolated(c: Cluster, gw: Gateway, l1: Listener, l2: Listener, hr: HTTPRoute)
    requires TwoListeners(gw, l1, l2) && RefersToAll(gw, hr) && Expanded(c, hr).routes != []
    requires HostnameAllows(l1, hr.hostnames) && HostnameAllows(l2, hr.hostnames)
    requires forall d :: d in DomainsOf(Link(l1, hr)) ==> d in DomainsOf(Link(l2, hr))
    ensures ListenersValid(gw) && Indexes(c, gw, [hr], IndexOfOne(l1, l2, hr))
    ensures IsolatedChain(c, [l1, l2], IndexOfOne(l1, l2, hr), 1)
    ensures !SameRoutes(c, AttachmentsUpTo([l1, l2], IndexOfOne(l1, l2, hr), 2, 0),
                        OwnOf([l1, l2], IndexOfOne(l1, l2, hr), 1))
  {
    TwoListenersValid(gw, l1, l2);
    OneRouteIndexes(c, gw, l1, l2, hr);
    TwoOnPort(l1, l2, l1.port);
    TwiceIsolated(c, gw, l1, l2, hr);
    NoRouteAddedExactly(c, gw, [hr], IndexOfOne(l1, l2, hr), l1.port, 1);
    assert hr in RoutesOn(l1, IndexOfOne(l1, l2, hr));
  }

  lemma TwiceIsolated(c: Cluster, gw: Gateway, l1: Listener, l2: Listener, hr: HTTPRoute)
    requires TwoListeners(gw, l1, l2) && NamesDetermine(gw) && OnPort([l1, l2], l1.port) == [l1, l2]
    requires Indexes(c, gw, [hr], IndexOfOne(l1, l2, hr)) && Attaches(c, gw, hr, l2.name)
    requires forall d :: d in DomainsOf(Link(l1, hr)) ==> d in DomainsOf(Link(l2, hr))
    ensures IsolatedChain(c, [l1, l2], IndexOfOne(l1, l2, hr), 1)
  {
    SharedExactly(c, gw, [hr], IndexOfOne(l1, l2, hr), l1.port, 1);
    assert [l1, l2][..1] == [l1];
  }

  /** For instance with the hostnames "*.d" and "a.d", and a route on "a.d". */
  lemma TwiceServedExist(port: int32, d: string)
    ensures var l1 := PlainListener("l1", HTTPS, Some("*." + d), port);
      var l2 := PlainListener("l2", HTTPS, Some("a." + d), port);
      && HostnameAllows(l1, ["a." + d]) && HostnameAllows(l2, ["a." + d]) && l1.hostname != l2.hostname
      && Intersecting(l1, ["a." + d]) == Intersecting(l2, ["a." + d])
  {
    assert ("a." + d)[0] == 'a' && ("*." + d)[0] == '*';
    assert ("*." + d)[1..] == "." + d == ("a." + d)[1..];
    OneHostname(PlainListener("l1", HTTPS, Some("*." + d), port), "a." + d);
    OneHostname(PlainListener("l2", HTTPS, Some("a." + d), port), "a." + d);
  }
}
