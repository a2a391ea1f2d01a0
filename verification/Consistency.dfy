/** When the endpoints of a build are those its clusters ask for, as the snapshot's consistency check demands. */
module Consistency {
  import opened Text
  import opened GatewayApi
  import opened EnvoyApi
  import opened RouteMatching
  import opened Backends
  import opened RouteTranslation
  import opened Attachment
  import opened ListenerConflicts
  import opened Clusters
  import opened VirtualHosts
  import opened PortBuild
  import opened XdsBuild
  import opened XdsProperties

  // ----- one order of the ports -----

  /** The last backend port of every name that an EDS backend needs is that of an EDS backend. */
  ghost predicate EdsLast(bs: seq<RouteBackend>) { forall n :: NeedsEndpoints(bs, n) ==> LastIsEds(bs, n) }

  /** A build is consistent exactly when, along the ports in the order they were visited, the last backend of every
      name that an EDS backend needs is EDS. */
  lemma BuildConsistent(c: Cluster, gw: Gateway, index: Index, x: XdsResources, order: seq<int32>)
    requires IsBuild(c, gw, index, x, order)
    ensures ConsistentSnapshot(x) <==> EdsLast(BackendsAlong(c, gw, index, order))
    ensures NoSharedNames(BackendsAlong(c, gw, index, order)) ==> ConsistentSnapshot(x)
  {
    var bs := BackendsAlong(c, gw, index, order);
    RequestedAreServiceNames(x.clusters, bs);
    EdsClosureExactly(c, bs);
    if NoSharedNames(bs) { EdsClosed(c, bs); }
    if forall b, p :: b in bs && b.resolution == EDS && p in b.ports ==> LastIsEds(bs, PortName(b, p)) {
      forall n | NeedsEndpoints(bs, n) ensures LastIsEds(bs, n) {
        var b, p :| b in bs && b.resolution == EDS && p in b.ports && n == PortName(b, p);
      }
    } else {
      var b, p :| b in bs && b.resolution == EDS && p in b.ports && !LastIsEds(bs, PortName(b, p));
      assert NeedsEndpoints(bs, PortName(b, p));
    }
  }

  // ----- every order of the ports -----

  /** Some port of a backend has this cluster name. */
  ghost predicate Occurs(bs: seq<RouteBackend>, n: string) {
    exists cl :: cl in ClustersOfBackends(bs) && cl.name == n
  }

  lemma LastNamedAppend(a: seq<EnvoyCluster>, b: seq<EnvoyCluster>, n: string, cl: EnvoyCluster)
    ensures LastNamed(a + b, n, cl) <==>
            LastNamed(b, n, cl) || (LastNamed(a, n, cl) && forall x :: x in b ==> x.name != n)
  {
    var s := a + b;
    if k :| 0 <= k < |s| && s[k] == cl && cl.name == n && forall j :: k < j < |s| ==> s[j].name != n {
      if k < |a| {
        assert a[k] == cl && forall j :: k < j < |a| ==> a[j] == s[j];
        forall x | x in b ensures x.name != n {
          var j :| 0 <= j < |b| && b[j] == x;
          assert s[|a| + j] == x;
        }
      } else {
        assert b[k - |a|] == cl && forall j :: k - |a| < j < |b| ==> b[j] == s[|a| + j];
      }
    }
    if k :| 0 <= k < |b| && b[k] == cl && cl.name == n && forall j :: k < j < |b| ==> b[j].name != n {
      assert s[|a| + k] == cl && forall j :: |a| + k < j < |s| ==> s[j] == b[j - |a|];
    }
    if LastNamed(a, n, cl) && forall x :: x in b ==> x.name != n {
      var k :| 0 <= k < |a| && a[k] == cl && cl.name == n && forall j :: k < j < |a| ==> a[j].name != n;
      assert s[k] == cl && forall j :: k < j < |s| ==> s[j] == if j < |a| then a[j] else b[j - |a|];
    }
  }

  /** Of two lists of backends the later one decides on the names that occur in it. */
  lemma LastIsEdsAppend(a: seq<RouteBackend>, b: seq<RouteBackend>, n: string)
    ensures LastIsEds(a + b, n) <==> if Occurs(b, n) then LastIsEds(b, n) else LastIsEds(a, n)
    ensures Occurs(a + b, n) <==> Occurs(a, n) || Occurs(b, n)
  {
    ClustersAppend(a, b);
    var x, y := ClustersOfBackends(a), ClustersOfBackends(b);
    forall cl { LastNamedAppend(x, y, n, cl); }
    assert forall cl :: cl in x + y <==> cl in x || cl in y;
    assert forall cl :: LastNamed(y, n, cl) ==> cl in y && cl.name == n;
  }

  function PortBackends(c: Cluster, gw: Gateway, index: Index, port: int32): seq<RouteBackend> {
    BackendsOfLinks(c, LinksOn(gw, index, port))
  }

  predicate Listens(gw: Gateway, port: int32) { exists l :: l in gw.listeners && l.port == port }

  /** Some EDS backend of the Gateway needs endpoints under the name. */
  ghost predicate Needed(c: Cluster, gw: Gateway, index: Index, n: string) {
    exists port :: Listens(gw, port) && NeededOn(c, gw, index, port, n)
  }

  ghost predicate NeededOn(c: Cluster, gw: Gateway, index: Index, port: int32, n: string) {
    NeedsEndpoints(PortBackends(c, gw, index, port), n)
  }

  /** On every port, the last backend of each needed name that occurs there is EDS. */
  ghost predicate EdsLastOnPorts(c: Cluster, gw: Gateway, index: Index) {
    forall port, n :: Listens(gw, port) && Needed(c, gw, index, n) && Occurs(PortBackends(c, gw, index, port), n) ==>
      LastIsEds(PortBackends(c, gw, index, port), n)
  }

  lemma AlongOneMore(c: Cluster, gw: Gateway, index: Index, order: seq<int32>)
    requires order != []
    ensures BackendsAlong(c, gw, index, order) ==
              BackendsAlong(c, gw, index, order[..|order| - 1]) + PortBackends(c, gw, index, order[|order| - 1])
  {
  }

  lemma {:induction false} NeededAlong(c: Cluster, gw: Gateway, index: Index, order: seq<int32>, n: string)
    ensures NeedsEndpoints(BackendsAlong(c, gw, index, order), n) <==> NeededOnSome(c, gw, index, order, n)
  {
    if order != [] {
      var front, last := order[..|order| - 1], order[|order| - 1];
      assert order == front + [last];
      NeededAlong(c, gw, index, front, n);
      NeedsOneMore(c, gw, index, order, n);
      NeededOnOneMore(c, gw, index, front, last, n);
    }
  }

  lemma NeedsOneMore(c: Cluster, gw: Gateway, index: Index, order: seq<int32>, n: string)
    requires order != []
    ensures NeedsEndpoints(BackendsAlong(c, gw, index, order), n) <==>
            NeedsEndpoints(BackendsAlong(c, gw, index, order[..|order| - 1]), n)
            || NeededOn(c, gw, index, order[|order| - 1], n)
  {
    AlongOneMore(c, gw, index, order);
    NeedsAppend(BackendsAlong(c, gw, index, order[..|order| - 1]), PortBackends(c, gw, index, order[|order| - 1]), n);
  }

  ghost predicate NeededOnSome(c: Cluster, gw: Gateway, index: Index, order: seq<int32>, n: string) {
    exists port :: port in order && NeededOn(c, gw, index, port, n)
  }

  lemma NeededOnOneMore(c: Cluster, gw: Gateway, index: Index, order: seq<int32>, port: int32, n: string)
    ensures NeededOnSome(c, gw, index, order + [port], n) <==>
            NeededOnSome(c, gw, index, order, n) || NeededOn(c, gw, index, port, n)
  {
    assert forall p :: p in order + [port] <==> p in order || p == port;
  }

  lemma NeedsAppend(a: seq<RouteBackend>, b: seq<RouteBackend>, n: string)
    ensures NeedsEndpoints(a + b, n) <==> NeedsEndpoints(a, n) || NeedsEndpoints(b, n)
  {
    if x, p :| x in a && x.resolution == EDS && p in x.ports && n == PortName(x, p) { assert x in a + b; }
    if x, p :| x in b && x.resolution == EDS && p in x.ports && n == PortName(x, p) { assert x in a + b; }
  }

  lemma NeededOccurs(bs: seq<RouteBackend>, n: string)
    requires NeedsEndpoints(bs, n)
    ensures Occurs(bs, n)
  {
    var b, p :| b in bs && b.resolution == EDS && p in b.ports && n == PortName(b, p);
    assert IsPortCluster(b, EnvoyClusterFor(b, p));
    InClustersOf(bs, EnvoyClusterFor(b, p));
  }

  lemma {:induction false} EdsLastAlong(c: Cluster, gw: Gateway, index: Index, order: seq<int32>, n: string)
    requires forall port :: port in order && Occurs(PortBackends(c, gw, index, port), n) ==>
               LastIsEds(PortBackends(c, gw, index, port), n)
    requires Occurs(BackendsAlong(c, gw, index, order), n)
    ensures LastIsEds(BackendsAlong(c, gw, index, order), n)
  {
    var front, last := order[..|order| - 1], order[|order| - 1];
    AlongOneMore(c, gw, index, order);
    LastIsEdsAppend(BackendsAlong(c, gw, index, front), PortBackends(c, gw, index, last), n);
    if !Occurs(PortBackends(c, gw, index, last), n) { EdsLastAlong(c, gw, index, front, n); }
  }

  /** Whatever the order of the ports, the build is consistent, exactly when on every port the last backend of each
      needed name that occurs there is EDS. */
  lemma ConsistentInEveryOrder(c: Cluster, gw: Gateway, index: Index)
    ensures EdsLastOnPorts(c, gw, index) ==> forall x, order :: IsBuild(c, gw, index, x, order) ==> ConsistentSnapshot(x)
    ensures (forall order :: PortOrder(gw, order) ==> EdsLast(BackendsAlong(c, gw, index, order))) <==>
            EdsLastOnPorts(c, gw, index)
  {
    if EdsLastOnPorts(c, gw, index) {
      forall order | PortOrder(gw, order) ensures EdsLast(BackendsAlong(c, gw, index, order)) {
        EdsLastInOrder(c, gw, index, order);
      }
      forall x, order | IsBuild(c, gw, index, x, order) ensures ConsistentSnapshot(x) {
        BuildConsistent(c, gw, index, x, order);
      }
    } else {
      var order := SomeOrderFails(c, gw, index);
    }
  }

  lemma SomeOrderFails(c: Cluster, gw: Gateway, index: Index) returns (order: seq<int32>)
    requires !EdsLastOnPorts(c, gw, index)
    ensures PortOrder(gw, order) && !EdsLast(BackendsAlong(c, gw, index, order))
  {
    var port, n :| Listens(gw, port) && Needed(c, gw, index, n) && Occurs(PortBackends(c, gw, index, port), n)
      && !LastIsEds(PortBackends(c, gw, index, port), n);
    order := PortsBut(gw.listeners, port) + [port];
    PortLast(gw, port);
    BadPortLast(c, gw, index, PortsBut(gw.listeners, port), port, n);
  }

  lemma EdsLastInOrder(c: Cluster, gw: Gateway, index: Index, order: seq<int32>)
    requires EdsLastOnPorts(c, gw, index) && PortOrder(gw, order)
    ensures EdsLast(BackendsAlong(c, gw, index, order))
  {
    forall n | NeedsEndpoints(BackendsAlong(c, gw, index, order), n)
      ensures LastIsEds(BackendsAlong(c, gw, index, order), n)
    {
      NeededInOrder(c, gw, index, order, n);
      NeededOccurs(BackendsAlong(c, gw, index, order), n);
      EdsLastAlong(c, gw, index, order, n);
    }
  }

  /** A port that ends a needed name with a DNS backend makes the build inconsistent when it comes last. */
  lemma BadPortLast(c: Cluster, gw: Gateway, index: Index, front: seq<int32>, port: int32, n: string)
    requires PortOrder(gw, front + [port]) && Needed(c, gw, index, n)
    requires Occurs(PortBackends(c, gw, index, port), n) && !LastIsEds(PortBackends(c, gw, index, port), n)
    ensures !EdsLast(BackendsAlong(c, gw, index, front + [port]))
  {
    var order := front + [port];
    NeededInOrder(c, gw, index, order, n);
    AlongOneMore(c, gw, index, order);
    assert order[..|order| - 1] == front;
    LastIsEdsAppend(BackendsAlong(c, gw, index, front), PortBackends(c, gw, index, port), n);
  }

  lemma NeededInOrder(c: Cluster, gw: Gateway, index: Index, order: seq<int32>, n: string)
    requires PortOrder(gw, order)
    ensures NeedsEndpoints(BackendsAlong(c, gw, index, order), n) <==> Needed(c, gw, index, n)
    ensures forall port :: port in order <==> Listens(gw, port)
  {
    NeededAlong(c, gw, index, order, n);
    assert forall port :: port in order <==> Listens(gw, port);
  }

  /** The ports of the listeners other than one, each once. */
  function PortsBut(ls: seq<Listener>, port: int32): seq<int32> {
    if ls == [] then []
    else
      var front, last := PortsBut(ls[..|ls| - 1], port), ls[|ls| - 1].port;
      if last == port || last in front then front else front + [last]
  }

  lemma {:induction false} PortsButExactly(ls: seq<Listener>, port: int32)
    ensures forall p :: p in PortsBut(ls, port) <==> p != port && exists l :: l in ls && l.port == p
    ensures forall i, j :: 0 <= i < j < |PortsBut(ls, port)| ==> PortsBut(ls, port)[i] != PortsBut(ls, port)[j]
  {
    if ls != [] {
      PortsButExactly(ls[..|ls| - 1], port);
      assert ls == ls[..|ls| - 1] + [ls[|ls| - 1]];
    }
  }

  /** Any port may be visited last. */
  lemma PortLast(gw: Gateway, port: int32)
    requires Listens(gw, port)
    ensures PortOrder(gw, PortsBut(gw.listeners, port) + [port])
  {
    var front := PortsBut(gw.listeners, port);
    PortsButExactly(gw.listeners, port);
    assert forall p :: p in front + [port] <==> p in front || p == port;
    assert forall i :: 0 <= i < |front| ==> front[i] in front;
  }

  // ----- a build that is refused -----

  /** A Service and an FQDN backend whose names make one cluster name. */
  function ClashingCluster(n: string, x: string, host: string, p: int32): Cluster
    requires p > 0
  {
    Cluster(map[NamespacedName(n, "synsvc-" + x) := XBackendDestination(Fqdn(host), [BackendPort(p, NoTLS)])],
            map[NamespacedName(n, x) := Service([ServicePort(p, IntPort(p))])], map[], map[])
  }

  /** One rule that forwards to the Service and then to the FQDN backend. */
  function ClashingRoute(n: string, g: string, x: string, p: int32): HTTPRoute {
    HTTPRoute(n, "r", [ParentReference(None, g, None, None)], [], [
                HTTPRouteRule([], [], [BackendRef("Service", None, x, Some(p), None),
                                       BackendRef("Backend", None, "synsvc-" + x, Some(p), None)])])
  }

  function ServiceSide(n: string, x: string, p: int32): RouteBackend
    requires p > 0
  {
    RouteBackend(ServiceSource, x, n, ServiceHostname(x, n), [RouteBackendPort(p, p, NoTLS)], EDS)
  }

  function FqdnSide(n: string, x: string, host: string, p: int32): RouteBackend
    requires p > 0
  {
    RouteBackend(BackendSource, "synsvc-" + x, n, host, [RouteBackendPort(p, 0, NoTLS)], DNS)
  }

  lemma ClashingFetched(n: string, g: string, x: string, host: string, p: int32)
    requires p > 0
    ensures var c, refs := ClashingCluster(n, x, host, p), ClashingRoute(n, g, x, p).rules[0].backendRefs;
      && Fetched(c, n, refs[0]) == Ok(ServiceSide(n, x, p))
      && Fetched(c, n, refs[1]) == Ok(FqdnSide(n, x, host, p))
  {
    var sp := ServicePort(p, IntPort(p));
    assert [sp][..0] == [] && PortsOfService([sp]) == PortsOfServicePort(sp);
    assert PortsOfBackend([BackendPort(p, NoTLS)]) == [RouteBackendPort(p, 0, NoTLS)];
  }

  /** The backends of a route with one rule that has neither matches nor filters and whose references resolve. */
  lemma OneRuleBackends(c: Cluster, hr: HTTPRoute)
    requires |hr.rules| == 1 && hr.rules[0].matches == [] && hr.rules[0].filters == []
    requires ForwardingOf(c, hr.namespace, hr.rules[0].backendRefs).Ok?
    ensures Expanded(c, hr).backends == BackendsIn(ResolveAll(c, hr.namespace, hr.rules[0].backendRefs).value)
  {
    assert MatchesOf(hr.rules[0]) == [MATCH_ALL] && Translatable(MATCH_ALL) && FiltersOf([]) == NO_FILTERS;
    assert UpTo(c, hr, 0, 1).backends == Compiled(c, hr, 0, 0).backends;
  }

  lemma ClashingBackends(n: string, g: string, x: string, host: string, p: int32)
    requires p > 0
    ensures var c, hr := ClashingCluster(n, x, host, p), ClashingRoute(n, g, x, p);
      Expanded(c, hr).backends == [ServiceSide(n, x, p), FqdnSide(n, x, host, p)]
  {
    var c, hr := ClashingCluster(n, x, host, p), ClashingRoute(n, g, x, p);
    ClashingFetched(n, g, x, host, p);
    TwoResolve(c, n, hr.rules[0].backendRefs);
    OneRuleBackends(c, hr);
  }

  /** A reference with traffic that resolves. */
  predicate HasTraffic(c: Cluster, n: string, ref: BackendRef) {
    && WeightOf(ref) != 0 && Fetched(c, n, ref).Ok?
    && ResolvedPort(Fetched(c, n, ref).value, ref.port).Some?
  }

  lemma TrafficResolves(c: Cluster, n: string, ref: BackendRef)
    requires HasTraffic(c, n, ref)
    ensures Resolve(c, n, ref).Ok? && Resolve(c, n, ref).value.cluster.Some?
    ensures Resolve(c, n, ref).value.backend == Fetched(c, n, ref).value
  {
  }

  /** Two such references. */
  lemma TwoResolve(c: Cluster, n: string, refs: seq<BackendRef>)
    requires |refs| == 2 && HasTraffic(c, n, refs[0]) && HasTraffic(c, n, refs[1])
    ensures ForwardingOf(c, n, refs).Ok?
    ensures BackendsIn(ResolveAll(c, n, refs).value) == [Fetched(c, n, refs[0]).value, Fetched(c, n, refs[1]).value]
  {
    TrafficResolves(c, n, refs[0]);
    TrafficResolves(c, n, refs[1]);
    TwoResolveAll(c, n, refs);
    assert ClustersIn([Resolve(c, n, refs[0]).value, Resolve(c, n, refs[1]).value]) != [];
  }

  lemma TwoResolveAll(c: Cluster, n: string, refs: seq<BackendRef>)
    requires |refs| == 2 && Resolve(c, n, refs[0]).Ok? && Resolve(c, n, refs[1]).Ok?
    ensures ResolveAll(c, n, refs) == Ok([Resolve(c, n, refs[0]).value, Resolve(c, n, refs[1]).value])
  {
    var first, second := Resolve(c, n, refs[0]).value, Resolve(c, n, refs[1]).value;
    assert refs[..0] == [] && refs[..2] == refs;
    ResolveAllOneMore(c, n, refs, 0, []);
    assert [] + [first] == [first];
    ResolveAllOneMore(c, n, refs, 1, [first]);
    assert [first] + [second] == [first, second];
  }

  /** A Gateway with one HTTP listener. */
  function OneListener(n: string, g: string, port: int32): Gateway {
    Gateway(n, g, [Listener("l", None, port, HTTP, None)])
  }

  /** The list that the index of such a Gateway holds. */
  function IndexOfOne(hr: HTTPRoute): Index { map["l" := [hr]] }

  /** The route attaches. */
  lemma ClashingAttaches(n: string, g: string, x: string, host: string, p: int32, port: int32)
    requires p > 0
    ensures var c, gw, hr := ClashingCluster(n, x, host, p), OneListener(n, g, port), ClashingRoute(n, g, x, p);
      Indexes(c, gw, [hr], IndexOfOne(hr))
  {
    var c, gw, hr := ClashingCluster(n, x, host, p), OneListener(n, g, port), ClashingRoute(n, g, x, p);
    var ref, l := hr.parentRefs[0], gw.listeners[0];
    assert ref in hr.parentRefs && l in gw.listeners && TargetsGateway(gw, hr, ref) && Attachment.Accepts(c, gw, hr, ref, l);
    forall name ensures Lookup(IndexOfOne(hr), name) == Attached(c, gw, [hr], name) {
      assert [hr][..0] == [];
      assert Attaches(c, gw, hr, name) <==> name == "l";
    }
  }

  lemma OnePort(order: seq<int32>, port: int32)
    requires port in order && forall p :: p in order ==> p == port
    requires forall i, j :: 0 <= i < j < |order| ==> order[i] != order[j]
    ensures order == [port]
  {
    assert order[0] in order;
    if |order| > 1 { FirstTwo(order); }
  }

  lemma FirstTwo(order: seq<int32>)
    requires |order| > 1
    ensures order[0] in order && order[1] in order
  {
  }

  lemma OneLink(n: string, g: string, port: int32, hr: HTTPRoute)
    ensures var gw := OneListener(n, g, port); LinksOn(gw, IndexOfOne(hr), port) == [Link(gw.listeners[0], hr)]
  {
    var gw, index := OneListener(n, g, port), IndexOfOne(hr);
    var l := gw.listeners[0];
    assert gw.listeners[..0] == [] && OnPort(gw.listeners, port) == [l];
    assert RoutesOn(l, index) == [hr];
    assert AttachmentsUpTo([l], index, 0, 1) == [Link(l, hr)];
  }

  lemma OneListenerOrder(n: string, g: string, port: int32, order: seq<int32>)
    requires PortOrder(OneListener(n, g, port), order)
    ensures order == [port]
  {
    var l := OneListener(n, g, port).listeners[0];
    assert l in OneListener(n, g, port).listeners && l.port == port;
    OnePort(order, port);
  }

  /** The backends of the Gateway: first the Service, then the FQDN backend, under one name. */
  lemma ClashingAlong(n: string, g: string, x: string, host: string, p: int32, port: int32)
    requires p > 0
    ensures var c, gw, hr := ClashingCluster(n, x, host, p), OneListener(n, g, port), ClashingRoute(n, g, x, p);
      BackendsAlong(c, gw, IndexOfOne(hr), [port]) == [ServiceSide(n, x, p), FqdnSide(n, x, host, p)]
  {
    var c, gw, hr := ClashingCluster(n, x, host, p), OneListener(n, g, port), ClashingRoute(n, g, x, p);
    OneRouteAlong(c, n, g, port, hr);
    ClashingBackends(n, g, x, host, p);
  }

  /** The backends of a Gateway with one listener and one route are those of the route. */
  lemma OneRouteAlong(c: Cluster, n: string, g: string, port: int32, hr: HTTPRoute)
    ensures BackendsAlong(c, OneListener(n, g, port), IndexOfOne(hr), [port]) == Expanded(c, hr).backends
  {
    OneLink(n, g, port, hr);
    var atts := [Link(OneListener(n, g, port).listeners[0], hr)];
    assert atts[..0] == [] && BackendsOfLinks(c, atts) == Expanded(c, hr).backends;
    assert [port][..0] == [];
  }

  /** The clash refuses every push: the Gateway is built, and the build is never consistent. */
  lemma ClashRefused(n: string, g: string, x: string, host: string, p: int32, port: int32)
    requires p > 0 && host != ""
    ensures var c, gw, hr := ClashingCluster(n, x, host, p), OneListener(n, g, port), ClashingRoute(n, g, x, p);
      && Indexes(c, gw, [hr], IndexOfOne(hr)) && BuildableGateway(c, gw, IndexOfOne(hr))
      && forall r, order :: IsBuild(c, gw, IndexOfOne(hr), r, order) ==> !ConsistentSnapshot(r)
  {
    var c, gw, hr := ClashingCluster(n, x, host, p), OneListener(n, g, port), ClashingRoute(n, g, x, p);
    ClashingAttaches(n, g, x, host, p, port);
    ClashingBuildable(n, g, x, host, p, port);
    forall r, order | IsBuild(c, gw, IndexOfOne(hr), r, order) ensures !ConsistentSnapshot(r) {
      OneListenerOrder(n, g, port, order);
      ClashingAlong(n, g, x, host, p, port);
      BuildConsistent(c, gw, IndexOfOne(hr), r, order);
      ClashingNotLast(n, x, host, p);
    }
  }

  lemma ClashingBuildable(n: string, g: string, x: string, host: string, p: int32, port: int32)
    requires p > 0 && host != ""
    ensures var c, gw, hr := ClashingCluster(n, x, host, p), OneListener(n, g, port), ClashingRoute(n, g, x, p);
      BuildableGateway(c, gw, IndexOfOne(hr))
  {
    var c, gw, hr := ClashingCluster(n, x, host, p), OneListener(n, g, port), ClashingRoute(n, g, x, p);
    OneListenerValid(n, g, port);
    ClashingRouteBuildable(n, g, x, host, p);
    forall a | Linked(gw, IndexOfOne(hr), a) ensures a.route == hr { OnlyLinked(n, g, port, hr, a); }
  }

  lemma OnlyLinked(n: string, g: string, port: int32, hr: HTTPRoute, a: Link)
    requires Linked(OneListener(n, g, port), IndexOfOne(hr), a)
    ensures a.route == hr
  {
  }

  lemma ClashingRouteBuildable(n: string, g: string, x: string, host: string, p: int32)
    requires p > 0 && host != ""
    ensures RouteBuildable(ClashingCluster(n, x, host, p), ClashingRoute(n, g, x, p))
  {
    ClashingBackends(n, g, x, host, p);
  }

  lemma OneListenerValid(n: string, g: string, port: int32)
    ensures ListenersValid(OneListener(n, g, port))
  {
  }

  lemma ClashingNotLast(n: string, x: string, host: string, p: int32)
    requires p > 0
    ensures !EdsLast([ServiceSide(n, x, p), FqdnSide(n, x, host, p)])
  {
    var eds, dns := ServiceSide(n, x, p), FqdnSide(n, x, host, p);
    var bs, name := [eds, dns], PortName(eds, eds.ports[0]);
    assert eds in bs && eds.ports[0] in eds.ports && NeedsEndpoints(bs, name);
    assert [eds] + [dns] == bs && [dns][..0] == [];
    assert ClustersOfBackends([dns]) == [EnvoyClusterFor(dns, dns.ports[0])];
    assert EnvoyClusterFor(dns, dns.ports[0]) in ClustersOfBackends([dns]) && Occurs([dns], name);
    LastIsEdsAppend([eds], [dns], name);
  }
}
