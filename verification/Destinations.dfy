/** Where forwarded traffic ends up: the emitted cluster of a name is that of the backend a reference means, or not. */
module Destinations {
  import opened Text
  import opened GatewayApi
  import opened EnvoyApi
  import opened Names
  import opened Backends
  import opened RouteTranslation
  import opened RouteProperties
  import opened Attachment
  import opened Clusters
  import opened VirtualHosts
  import opened PortBuild
  import opened XdsBuild
  import opened XdsProperties
  import opened Targets
  import opened Translator
  import opened Witnesses
  import opened EndToEnd
  import opened Consistency

  // ----- the reference behind a weighted cluster -----

  /** Every weighted cluster of a compiled pair carries the weight of a reference of its rule, and the name of the port
      that the reference means. */
  lemma ReferenceBehind(c: Cluster, hr: HTTPRoute, i: nat, j: nat, cw: ClusterWeight)
    returns (ref: BackendRef, b: RouteBackend, p: RouteBackendPort)
    requires PortsFit(c) && IsPair(hr, i, j)
    requires Compiled(c, hr, i, j).route.Some? && cw in ClustersOf(Compiled(c, hr, i, j).route.value)
    ensures ref in hr.rules[i].backendRefs && Means(c, hr.namespace, ref, b, p)
    ensures cw.name == PortName(b, p) && cw.weight == ToUint32(WeightOf(ref))
    ensures b in Compiled(c, hr, i, j).backends
  {
    var refs := hr.rules[i].backendRefs;
    ref, b, p := ReferenceOf(c, hr.namespace, refs, cw);
    assert WasFetched(c, hr.namespace, b);
    FetchedPortsFit(c, hr.namespace, b, p);
    BackendsFaithful(c, hr.namespace, refs);
    var k :| 0 <= k < |refs| && refs[k] == ref;
    assert Compiled(c, hr, i, j).backends[k] == b;
  }

  lemma {:induction false} ReferenceOf(c: Cluster, namespace: string, refs: seq<BackendRef>, cw: ClusterWeight)
    returns (ref: BackendRef, b: RouteBackend, p: RouteBackendPort)
    requires ResolveAll(c, namespace, refs).Ok? && cw in ClustersIn(ResolveAll(c, namespace, refs).value)
    ensures ref in refs && Means(c, namespace, ref, b, p) && cw.weight == ToUint32(WeightOf(ref))
    ensures cw.name == ClusterName(b.namespace, BackendClusterName(b), ToInt32(p.number))
  {
    var front, last := refs[..|refs| - 1], refs[|refs| - 1];
    ResolveAllStep(c, namespace, refs);
    if cw in ClustersIn(ResolveAll(c, namespace, front).value) {
      ref, b, p := ReferenceOf(c, namespace, front, cw);
    } else {
      ref, b := last, Fetched(c, namespace, last).value;
      p := FirstSelected(b, last.port.value, 0).value;
      var k := FirstSelectedIsFirst(b, last.port.value, 0);
    }
  }

  // ----- one order of the ports -----

  /** The last backend port of the name yields this very cluster. */
  ghost predicate LastYields(bs: seq<RouteBackend>, n: string, cl: EnvoyCluster) {
    LastNamed(ClustersOfBackends(bs), n, cl)
  }

  /** The emitted cluster of a backend's port name is that of the backend exactly when the last backend port of this name,
      along the ports in the order they were visited, yields the same cluster. */
  lemma DestinationExactly(c: Cluster, gw: Gateway, index: Index, x: XdsResources, order: seq<int32>,
                           b: RouteBackend, p: RouteBackendPort) returns (cl: EnvoyCluster)
    requires IsBuild(c, gw, index, x, order) && b in BackendsAlong(c, gw, index, order) && p in b.ports
    ensures cl in x.clusters && cl.name == PortName(b, p)
    ensures forall y :: y in x.clusters && y.name == PortName(b, p) ==> y == cl
    ensures cl == EnvoyClusterFor(b, p) <==>
            LastYields(BackendsAlong(c, gw, index, order), PortName(b, p), EnvoyClusterFor(b, p))
  {
    var bs, n := BackendsAlong(c, gw, index, order), PortName(b, p);
    TableHasPort(bs, b, p);
    TableNames(bs);
    LastWriteWins(ClustersOfBackends(bs), n);
    cl := TableOf(bs)[n];
    if LastYields(bs, n, EnvoyClusterFor(b, p)) { LastNamedUnique(ClustersOfBackends(bs), n, cl, EnvoyClusterFor(b, p)); }
  }

  // ----- every order of the ports -----

  /** On every port where the name occurs, its last backend port yields this cluster. */
  ghost predicate LastOnPorts(c: Cluster, gw: Gateway, index: Index, n: string, cl: EnvoyCluster) {
    forall port :: Listens(gw, port) && Occurs(PortBackends(c, gw, index, port), n) ==>
      LastYields(PortBackends(c, gw, index, port), n, cl)
  }

  lemma LastYieldsAppend(a: seq<RouteBackend>, b: seq<RouteBackend>, n: string, cl: EnvoyCluster)
    ensures LastYields(a + b, n, cl) <==> if Occurs(b, n) then LastYields(b, n, cl) else LastYields(a, n, cl)
    ensures Occurs(a + b, n) <==> Occurs(a, n) || Occurs(b, n)
  {
    ClustersAppend(a, b);
    LastNamedAppend(ClustersOfBackends(a), ClustersOfBackends(b), n, cl);
    LastIsEdsAppend(a, b, n);
  }

  lemma {:induction false} LastYieldsAlong(c: Cluster, gw: Gateway, index: Index, order: seq<int32>, n: string,
                                           cl: EnvoyCluster)
    requires forall port :: port in order && Occurs(PortBackends(c, gw, index, port), n) ==>
               LastYields(PortBackends(c, gw, index, port), n, cl)
    requires Occurs(BackendsAlong(c, gw, index, order), n)
    ensures LastYields(BackendsAlong(c, gw, index, order), n, cl)
  {
    var front, last := order[..|order| - 1], order[|order| - 1];
    AlongOneMore(c, gw, index, order);
    LastYieldsAppend(BackendsAlong(c, gw, index, front), PortBackends(c, gw, index, last), n, cl);
    if !Occurs(PortBackends(c, gw, index, last), n) { LastYieldsAlong(c, gw, index, front, n, cl); }
  }

  /** Backend b belongs to the Gateway. */
  ghost predicate BackendOfGateway(c: Cluster, gw: Gateway, index: Index, b: RouteBackend) {
    exists a :: Linked(gw, index, a) && b in Expanded(c, a.route).backends
  }

  lemma NameOccursAlong(c: Cluster, gw: Gateway, index: Index, order: seq<int32>, b: RouteBackend, p: RouteBackendPort)
    requires PortOrder(gw, order) && BackendOfGateway(c, gw, index, b) && p in b.ports
    ensures b in BackendsAlong(c, gw, index, order) && Occurs(BackendsAlong(c, gw, index, order), PortName(b, p))
  {
    var a :| Linked(gw, index, a) && b in Expanded(c, a.route).backends;
    LinkedBackendAlong(c, gw, index, order, a, b);
    assert IsPortCluster(b, EnvoyClusterFor(b, p));
    InClustersOf(BackendsAlong(c, gw, index, order), EnvoyClusterFor(b, p));
  }

  /** Whatever the order of the ports, the name of a backend's port leads to this backend, exactly when on every port where
      the name occurs its last backend port yields the same cluster; then it does so in every build. */
  lemma DestinationInEveryOrder(c: Cluster, gw: Gateway, index: Index, b: RouteBackend, p: RouteBackendPort)
    requires BackendOfGateway(c, gw, index, b) && p in b.ports
    ensures var n, cl := PortName(b, p), EnvoyClusterFor(b, p);
      (forall order :: PortOrder(gw, order) ==> LastYields(BackendsAlong(c, gw, index, order), n, cl)) <==>
      LastOnPorts(c, gw, index, n, cl)
    ensures LastOnPorts(c, gw, index, PortName(b, p), EnvoyClusterFor(b, p)) ==>
              forall x, order :: IsBuild(c, gw, index, x, order) ==> EnvoyClusterFor(b, p) in x.clusters
  {
    var n, cl := PortName(b, p), EnvoyClusterFor(b, p);
    if LastOnPorts(c, gw, index, n, cl) {
      forall order | PortOrder(gw, order) ensures LastYields(BackendsAlong(c, gw, index, order), n, cl) {
        NameOccursAlong(c, gw, index, order, b, p);
        LastYieldsAlong(c, gw, index, order, n, cl);
      }
      forall x, order | IsBuild(c, gw, index, x, order) ensures cl in x.clusters {
        NameOccursAlong(c, gw, index, order, b, p);
        var emitted := DestinationExactly(c, gw, index, x, order, b, p);
      }
    } else {
      var order := OrderThatMisleads(c, gw, index, n, cl);
    }
  }

  lemma OrderThatMisleads(c: Cluster, gw: Gateway, index: Index, n: string, cl: EnvoyCluster) returns (order: seq<int32>)
    requires !LastOnPorts(c, gw, index, n, cl)
    ensures PortOrder(gw, order) && !LastYields(BackendsAlong(c, gw, index, order), n, cl)
  {
    var port :| Listens(gw, port) && Occurs(PortBackends(c, gw, index, port), n)
      && !LastYields(PortBackends(c, gw, index, port), n, cl);
    var front := PortsBut(gw.listeners, port);
    order := front + [port];
    PortLast(gw, port);
    AlongOneMore(c, gw, index, order);
    assert order[..|order| - 1] == front;
    LastYieldsAppend(BackendsAlong(c, gw, index, front), PortBackends(c, gw, index, port), n, cl);
  }

  // ----- endpoints -----

  /** Some EDS backend port of the list yields the assignment. */
  ghost predicate Assigns(c: Cluster, bs: seq<RouteBackend>, y: ClusterLoadAssignment) {
    exists b, p :: b in bs && b.resolution == EDS && p in b.ports && y == AssignmentOf(c, b, p)
  }

  ghost predicate AssignsOne(c: Cluster, b: RouteBackend, y: ClusterLoadAssignment) {
    b.resolution == EDS && exists p :: p in b.ports && y == AssignmentOf(c, b, p)
  }

  lemma {:induction false} AssignedExactly(c: Cluster, bs: seq<RouteBackend>, y: ClusterLoadAssignment)
    ensures y in EdsOf(c, bs) <==> Assigns(c, bs, y)
  {
    if bs != [] {
      var front, last := bs[..|bs| - 1], bs[|bs| - 1];
      AssignedExactly(c, front, y);
      AssignedByOne(c, last, y);
      assert bs == front + [last];
      AssignsOneMore(c, front, last, y);
    }
  }

  lemma AssignedByOne(c: Cluster, b: RouteBackend, y: ClusterLoadAssignment)
    ensures b.resolution == EDS ==> (y in AssignmentsOfPorts(c, b) <==> AssignsOne(c, b, y))
  {
    if b.resolution == EDS && AssignsOne(c, b, y) {
      var p :| p in b.ports && y == AssignmentOf(c, b, p);
      var k :| 0 <= k < |b.ports| && b.ports[k] == p;
      assert AssignmentsOfPorts(c, b)[k] == y;
    }
  }

  lemma AssignsOneMore(c: Cluster, bs: seq<RouteBackend>, b: RouteBackend, y: ClusterLoadAssignment)
    ensures Assigns(c, bs + [b], y) <==> Assigns(c, bs, y) || AssignsOne(c, b, y)
  {
    if x, p :| x in bs && x.resolution == EDS && p in x.ports && y == AssignmentOf(c, x, p) { assert x in bs + [b]; }
    if AssignsOne(c, b, y) { assert b in bs + [b]; }
  }

  /** The assignment is given, and is the only one of its name. */
  predicate OnlyAssignment(given: seq<ClusterLoadAssignment>, y: ClusterLoadAssignment) {
    y in given && forall x :: x in given && x.clusterName == y.clusterName ==> x == y
  }

  /** All EDS backend ports of the Gateway that have the name yield this assignment. */
  ghost predicate AssignmentsAgree(c: Cluster, gw: Gateway, index: Index, y: ClusterLoadAssignment) {
    forall b, p :: BackendOfGateway(c, gw, index, b) && b.resolution == EDS && p in b.ports ==>
      (PortName(b, p) == y.clusterName ==> AssignmentOf(c, b, p) == y)
  }

  /** The backends along any order of the ports are those of the Gateway. */
  lemma BackendsAlongExactly(c: Cluster, gw: Gateway, index: Index, order: seq<int32>, b: RouteBackend)
    requires PortOrder(gw, order)
    ensures b in BackendsAlong(c, gw, index, order) <==> BackendOfGateway(c, gw, index, b)
  {
    if BackendOfGateway(c, gw, index, b) {
      var a :| Linked(gw, index, a) && b in Expanded(c, a.route).backends;
      LinkedBackendAlong(c, gw, index, order, a, b);
    }
    if b in BackendsAlong(c, gw, index, order) {
      InBackendsAlong(c, gw, index, order, b);
      var port :| port in order && BackendOn(c, gw, index, port, b);
      var a :| a in LinksOn(gw, index, port) && b in Expanded(c, a.route).backends;
      LinksOnExactly(gw, index, port, a);
    }
  }

  /** In every build, whatever the order of the ports, the endpoints given under the name of an EDS backend's port are those
      found for this backend and no others, exactly when all EDS backend ports of that name yield the same assignment. */
  lemma EndpointsExactly(c: Cluster, gw: Gateway, index: Index, x: XdsResources, order: seq<int32>,
                         b: RouteBackend, p: RouteBackendPort)
    requires IsBuild(c, gw, index, x, order) && BackendOfGateway(c, gw, index, b) && p in b.ports && b.resolution == EDS
    ensures OnlyAssignment(x.endpoints, AssignmentOf(c, b, p)) <==> AssignmentsAgree(c, gw, index, AssignmentOf(c, b, p))
  {
    var bs, y := BackendsAlong(c, gw, index, order), AssignmentOf(c, b, p);
    forall z { AssignedExactly(c, bs, z); }
    forall z { BackendsAlongExactly(c, gw, index, order, z); }
    assert Assigns(c, bs, y);
    if OnlyAssignment(x.endpoints, y) {
      forall b', p' | BackendOfGateway(c, gw, index, b') && b'.resolution == EDS && p' in b'.ports
                      && PortName(b', p') == y.clusterName
        ensures AssignmentOf(c, b', p') == y
      {
        assert Assigns(c, bs, AssignmentOf(c, b', p'));
      }
    }
  }

  /** The traffic for the backend's port reaches it: the cluster of the name is its own, and with endpoint discovery so are
      all endpoints given for the name. */
  predicate Reaches(c: Cluster, x: XdsResources, b: RouteBackend, p: RouteBackendPort) {
    && (forall cl :: cl in x.clusters && cl.name == PortName(b, p) ==> cl == EnvoyClusterFor(b, p))
    && (b.resolution == EDS ==> OnlyAssignment(x.endpoints, AssignmentOf(c, b, p)))
  }

  /** Backend b is meant under its name by the last port along the order and by all EDS backends. */
  ghost predicate Unmistaken(
    c: Cluster, gw: Gateway, index: Index, order: seq<int32>, b: RouteBackend, p: RouteBackendPort)
  {
    && LastYields(BackendsAlong(c, gw, index, order), PortName(b, p), EnvoyClusterFor(b, p))
    && (b.resolution == EDS ==> AssignmentsAgree(c, gw, index, AssignmentOf(c, b, p)))
  }

  lemma ReachesExactly(c: Cluster, gw: Gateway, index: Index, x: XdsResources, order: seq<int32>,
                       b: RouteBackend, p: RouteBackendPort)
    requires IsBuild(c, gw, index, x, order) && BackendOfGateway(c, gw, index, b) && p in b.ports
    ensures Reaches(c, x, b, p) <==> Unmistaken(c, gw, index, order, b, p)
  {
    BackendsAlongExactly(c, gw, index, order, b);
    var cl := DestinationExactly(c, gw, index, x, order, b, p);
    if b.resolution == EDS { EndpointsExactly(c, gw, index, x, order, b, p); }
  }

  /** The ports can be ordered. */
  lemma AnyOrder(gw: Gateway) returns (order: seq<int32>)
    ensures PortOrder(gw, order)
  {
    order := [];
    if gw.listeners != [] {
      var port := gw.listeners[0].port;
      assert Listens(gw, port);
      order := PortsBut(gw.listeners, port) + [port];
      PortLast(gw, port);
    }
  }

  /** Whatever the order of the ports, the traffic for a backend's port reaches it, exactly when on every port where its
      name occurs the last backend port of the name yields the same cluster, and all EDS backend ports of the name yield
      the same assignment. */
  lemma ReachesInEveryOrder(c: Cluster, gw: Gateway, index: Index, b: RouteBackend, p: RouteBackendPort)
    requires BackendOfGateway(c, gw, index, b) && p in b.ports
    ensures var agree := LastOnPorts(c, gw, index, PortName(b, p), EnvoyClusterFor(b, p))
                         && (b.resolution == EDS ==> AssignmentsAgree(c, gw, index, AssignmentOf(c, b, p)));
      && ((forall order :: PortOrder(gw, order) ==> Unmistaken(c, gw, index, order, b, p)) <==> agree)
      && (agree ==> forall x, order :: IsBuild(c, gw, index, x, order) ==> Reaches(c, x, b, p))
  {
    DestinationInEveryOrder(c, gw, index, b, p);
    var order := AnyOrder(gw);
    forall x, order | IsBuild(c, gw, index, x, order) { ReachesExactly(c, gw, index, x, order, b, p); }
  }

  // ----- from the request to the backend -----

  /** A request that is answered by forwarding goes, for every weighted cluster of the answer, to the emitted cluster of
      this name, which is that of the backend meant by a reference of the answering rule exactly when the name's last
      backend port yields the same cluster. */
  lemma AnswerReachesBackend(c: Cluster, gw: Gateway, routes: seq<HTTPRoute>, index: Index, x: XdsResources,
                             order: seq<int32>, el: EnvoyListener, chain: FilterChain, re: Regexes, req: Request,
                             cw: ClusterWeight)
    returns (l: Listener, hr: HTTPRoute, i: nat, j: nat, ref: BackendRef, b: RouteBackend, p: RouteBackendPort,
             cl: EnvoyCluster)
    requires Indexes(c, gw, routes, index) && IsBuild(c, gw, index, x, order) && PortsFit(c)
    requires ValidHostnames(gw, routes) && el in x.listeners && chain in el.filterChains && req.path != ""
    requires Answer(chain.virtualHosts, re, req).Some? && cw in ClustersOf(Answer(chain.virtualHosts, re, req).value)
    ensures hr in routes && Attaches(c, gw, hr, l.name) && IsPair(hr, i, j) && Serves(c, hr, i, j, re, req)
    ensures Compiled(c, hr, i, j).route == Answer(chain.virtualHosts, re, req)
    ensures ref in hr.rules[i].backendRefs && Means(c, hr.namespace, ref, b, p) && cw.name == PortName(b, p)
    ensures cl in x.clusters && cl.name == cw.name && forall y :: y in x.clusters && y.name == cw.name ==> y == cl
    ensures cl == EnvoyClusterFor(b, p) <==>
            LastYields(BackendsAlong(c, gw, index, order), cw.name, EnvoyClusterFor(b, p))
    ensures Reaches(c, x, b, p) <==> Unmistaken(c, gw, index, order, b, p)
    ensures Reaches(c, x, b, p) ==> PointsTo(c, hr.namespace, ref, cl)
    ensures Reaches(c, x, b, p) && cl.discovery.Eds? ==>
              exists y :: OnlyAssignment(x.endpoints, y) && y.clusterName == cl.name
                && EndpointsTold(c, hr.namespace, ref, y.endpoints)
  {
    var k;
    k, l, hr, i, j := AnsweredByAttachedPair(c, gw, routes, index, x.listeners, el, chain, re, req);
    LinkedExactly(c, gw, routes, index, Link(l, hr));
    ref, b, p, cl := ForwardsTo(c, gw, index, x, order, l, hr, i, j, cw);
  }

  /** The same of a weighted cluster of a linked pair. */
  lemma ForwardsTo(c: Cluster, gw: Gateway, index: Index, x: XdsResources, order: seq<int32>, l: Listener, hr: HTTPRoute,
                   i: nat, j: nat, cw: ClusterWeight)
    returns (ref: BackendRef, b: RouteBackend, p: RouteBackendPort, cl: EnvoyCluster)
    requires IsBuild(c, gw, index, x, order) && PortsFit(c) && Linked(gw, index, Link(l, hr)) && IsPair(hr, i, j)
    requires Compiled(c, hr, i, j).route.Some? && cw in ClustersOf(Compiled(c, hr, i, j).route.value)
    ensures ref in hr.rules[i].backendRefs && Means(c, hr.namespace, ref, b, p) && cw.name == PortName(b, p)
    ensures cl in x.clusters && cl.name == cw.name && forall y :: y in x.clusters && y.name == cw.name ==> y == cl
    ensures cl == EnvoyClusterFor(b, p) <==>
            LastYields(BackendsAlong(c, gw, index, order), cw.name, EnvoyClusterFor(b, p))
    ensures Reaches(c, x, b, p) <==> Unmistaken(c, gw, index, order, b, p)
    ensures Reaches(c, x, b, p) ==> PointsTo(c, hr.namespace, ref, cl)
    ensures Reaches(c, x, b, p) && cl.discovery.Eds? ==>
              exists y :: OnlyAssignment(x.endpoints, y) && y.clusterName == cl.name
                && EndpointsTold(c, hr.namespace, ref, y.endpoints)
  {
    ref, b, p := ReferenceBehind(c, hr, i, j, cw);
    BackendIsLinked(c, gw, index, l, hr, i, j, b);
    NameOccursAlong(c, gw, index, order, b, p);
    cl := DestinationExactly(c, gw, index, x, order, b, p);
    ReachesExactly(c, gw, index, x, order, b, p);
    ClusterTarget(c, hr.namespace, ref, b, p);
    AssignmentTarget(c, hr.namespace, ref, b, p);
    if Reaches(c, x, b, p) && cl.discovery.Eds? { assert OnlyAssignment(x.endpoints, AssignmentOf(c, b, p)); }
  }

  lemma BackendIsLinked(c: Cluster, gw: Gateway, index: Index, l: Listener, hr: HTTPRoute, i: nat, j: nat, b: RouteBackend)
    requires Linked(gw, index, Link(l, hr)) && IsPair(hr, i, j) && b in Compiled(c, hr, i, j).backends
    ensures BackendOfGateway(c, gw, index, b)
  {
    PairIncluded(c, hr, |hr.rules|, 0, i, j);
    assert b in Expanded(c, Link(l, hr).route).backends;
  }

  // ----- a build that misdirects -----

  /** Two FQDN backends in namespaces of their own. */
  function TwoHosts(a: NamespacedName, b: NamespacedName, h1: string, h2: string, p: int32): Cluster
    requires p > 0
  {
    Cluster(map[a := XBackendDestination(Fqdn(h1), [BackendPort(p, NoTLS)]),
                b := XBackendDestination(Fqdn(h2), [BackendPort(p, NoTLS)])], map[], map[], map[])
  }

  function RefTo(b: NamespacedName, p: int32): BackendRef { BackendRef("Backend", Some(b.namespace), b.name, Some(p), None) }

  /** One rule that shares its traffic between the two. */
  function SharingRoute(n: string, g: string, a: NamespacedName, b: NamespacedName, p: int32): HTTPRoute {
    HTTPRoute(n, "r", [ParentNamed(g)], [], [HTTPRouteRule([], [], [RefTo(a, p), RefTo(b, p)])])
  }

  function HostSide(b: NamespacedName, host: string, p: int32): RouteBackend
    requires p > 0
  {
    RouteBackend(BackendSource, b.name, b.namespace, host, [RouteBackendPort(p, 0, NoTLS)], DNS)
  }

  lemma SharingBackends(n: string, g: string, a: NamespacedName, b: NamespacedName, h1: string, h2: string, p: int32)
    requires p > 0 && a != b
    ensures Expanded(TwoHosts(a, b, h1, h2, p), SharingRoute(n, g, a, b, p)).backends ==
              [HostSide(a, h1, p), HostSide(b, h2, p)]
  {
    var c, hr := TwoHosts(a, b, h1, h2, p), SharingRoute(n, g, a, b, p);
    var refs := hr.rules[0].backendRefs;
    assert PortsOfBackend([BackendPort(p, NoTLS)]) == [RouteBackendPort(p, 0, NoTLS)];
    assert Fetched(c, n, refs[0]) == Ok(HostSide(a, h1, p)) && Fetched(c, n, refs[1]) == Ok(HostSide(b, h2, p));
    TwoResolve(c, n, refs);
    OneRuleBackends(c, hr);
  }

  /** A route without hostnames attaches to a Gateway with one listener, which can be built when the route can. */
  lemma OneRouteGateway(c: Cluster, n: string, g: string, port: int32, hr: HTTPRoute)
    requires hr.namespace == n && hr.parentRefs == [ParentNamed(g)] && hr.hostnames == [] && RouteBuildable(c, hr)
    ensures Indexes(c, OneListener(n, g, port), [hr], IndexOfOne(hr))
    ensures BuildableGateway(c, OneListener(n, g, port), IndexOfOne(hr))
  {
    var gw := OneListener(n, g, port);
    TakesAllIndexes(c, gw, gw.listeners[0], [hr]);
    TakesAllBuildable(c, gw, gw.listeners[0], [hr]);
  }

  /** When the texts "namespace-name" of two FQDN backends coincide, as those of "c" in "a-b" and "b-c" in "a" do, every
      build of a Gateway that shares traffic between them is consistent, and sends all of it to the second. */
  lemma TrafficMisdirected(n: string, g: string, port: int32, a: NamespacedName, b: NamespacedName, h1: string, h2: string,
                           p: int32)
    requires p > 0 && a != b && h1 != "" && h2 != "" && h1 != h2
    requires a.namespace + "-" + a.name == b.namespace + "-" + b.name
    ensures var c, hr := TwoHosts(a, b, h1, h2, p), SharingRoute(n, g, a, b, p);
      var gw, first, second := OneListener(n, g, port), HostSide(a, h1, p), HostSide(b, h2, p);
      && Indexes(c, gw, [hr], IndexOfOne(hr)) && BuildableGateway(c, gw, IndexOfOne(hr))
      && forall x, order :: IsBuild(c, gw, IndexOfOne(hr), x, order) ==>
           && ConsistentSnapshot(x)
           && EnvoyClusterFor(second, second.ports[0]) in x.clusters
           && forall cl :: cl in x.clusters && cl.name == PortName(first, first.ports[0]) ==>
                cl == EnvoyClusterFor(second, second.ports[0]) != EnvoyClusterFor(first, first.ports[0])
  {
    var c, hr := TwoHosts(a, b, h1, h2, p), SharingRoute(n, g, a, b, p);
    var gw, index, first, second := OneListener(n, g, port), IndexOfOne(hr), HostSide(a, h1, p), HostSide(b, h2, p);
    SharingBackends(n, g, a, b, h1, h2, p);
    OneRouteGateway(c, n, g, port, hr);
    forall x, order | IsBuild(c, gw, index, x, order)
      ensures ConsistentSnapshot(x) && EnvoyClusterFor(second, second.ports[0]) in x.clusters
      ensures forall cl :: cl in x.clusters && cl.name == PortName(first, first.ports[0]) ==>
                cl == EnvoyClusterFor(second, second.ports[0]) != EnvoyClusterFor(first, first.ports[0])
    {
      OneListenerOrder(n, g, port, order);
      OneRouteAlong(c, n, g, port, hr);
      SecondStays(c, gw, index, x, order, first, second);
    }
  }

  /** Of two DNS backends with one cluster name the second is emitted, and no endpoints are asked for. */
  lemma SecondStays(c: Cluster, gw: Gateway, index: Index, x: XdsResources, order: seq<int32>,
                    first: RouteBackend, second: RouteBackend)
    requires IsBuild(c, gw, index, x, order) && BackendsAlong(c, gw, index, order) == [first, second]
    requires |first.ports| == 1 && |second.ports| == 1 && first.resolution == DNS && second.resolution == DNS
    requires PortName(first, first.ports[0]) == PortName(second, second.ports[0])
    ensures ConsistentSnapshot(x) && EnvoyClusterFor(second, second.ports[0]) in x.clusters
    ensures forall cl :: cl in x.clusters && cl.name == PortName(first, first.ports[0]) ==>
              cl == EnvoyClusterFor(second, second.ports[0])
  {
    var bs := [first, second];
    TwoClusters(first, second);
    assert ClustersOfBackends(bs)[1] == EnvoyClusterFor(second, second.ports[0]);
    var emitted := DestinationExactly(c, gw, index, x, order, second, second.ports[0]);
    BuildConsistent(c, gw, index, x, order);
    DnsNeedsNothing(bs);
  }

  lemma TwoClusters(first: RouteBackend, second: RouteBackend)
    requires |first.ports| == 1 && |second.ports| == 1
    ensures ClustersOfBackends([first, second]) ==
              [EnvoyClusterFor(first, first.ports[0]), EnvoyClusterFor(second, second.ports[0])]
  {
    assert [first] + [second] == [first, second] && [first][..0] == [] && [second][..0] == [];
    ClustersAppend([first], [second]);
    assert ClustersOfBackends([first]) == ClustersOfPorts(first);
    assert ClustersOfBackends([second]) == ClustersOfPorts(second);
  }

  lemma DnsNeedsNothing(bs: seq<RouteBackend>)
    requires forall b :: b in bs ==> b.resolution == DNS
    ensures EdsLast(bs)
  {
  }

  // ----- a build that mixes endpoints -----

  /** Two backends of Services, each with endpoints under its own name. */
  function TwoServices(a: NamespacedName, b: NamespacedName, s1: string, s2: string, p: int32,
                       e1: seq<EndpointSlice>, e2: seq<EndpointSlice>): Cluster
    requires p > 0
  {
    Cluster(map[a := XBackendDestination(ServiceDestination(s1), [BackendPort(p, NoTLS)]),
                b := XBackendDestination(ServiceDestination(s2), [BackendPort(p, NoTLS)])],
            map[], map[], map[a := e1, b := e2])
  }

  function EndpointSide(b: NamespacedName, service: string, p: int32): RouteBackend
    requires p > 0
  {
    RouteBackend(BackendSource, b.name, b.namespace, ServiceHostname(service, b.namespace),
                 [RouteBackendPort(p, 0, NoTLS)], EDS)
  }

  lemma MixedBackends(n: string, g: string, a: NamespacedName, b: NamespacedName, s1: string, s2: string, p: int32,
                      e1: seq<EndpointSlice>, e2: seq<EndpointSlice>)
    requires p > 0 && a != b
    ensures Expanded(TwoServices(a, b, s1, s2, p, e1, e2), SharingRoute(n, g, a, b, p)).backends ==
              [EndpointSide(a, s1, p), EndpointSide(b, s2, p)]
  {
    var c, hr := TwoServices(a, b, s1, s2, p, e1, e2), SharingRoute(n, g, a, b, p);
    var refs := hr.rules[0].backendRefs;
    assert PortsOfBackend([BackendPort(p, NoTLS)]) == [RouteBackendPort(p, 0, NoTLS)];
    assert Fetched(c, n, refs[0]) == Ok(EndpointSide(a, s1, p)) && Fetched(c, n, refs[1]) == Ok(EndpointSide(b, s2, p));
    TwoResolve(c, n, refs);
    OneRuleBackends(c, hr);
  }

  /** When the texts "namespace-name" of two such backends coincide and their endpoints differ, every build of a Gateway
      that shares traffic between them is consistent, has one cluster for both, and two assignments of its name: the
      traffic of neither is sure to reach it. */
  lemma EndpointsMixed(n: string, g: string, port: int32, a: NamespacedName, b: NamespacedName, s1: string, s2: string,
                       p: int32, e1: seq<EndpointSlice>, e2: seq<EndpointSlice>)
    requires p > 0 && a != b && a.namespace + "-" + a.name == b.namespace + "-" + b.name
    requires EndpointsOf(e1, p) != EndpointsOf(e2, p)
    ensures var c, hr := TwoServices(a, b, s1, s2, p, e1, e2), SharingRoute(n, g, a, b, p);
      var gw, first, second := OneListener(n, g, port), EndpointSide(a, s1, p), EndpointSide(b, s2, p);
      && Indexes(c, gw, [hr], IndexOfOne(hr)) && BuildableGateway(c, gw, IndexOfOne(hr))
      && forall x, order :: IsBuild(c, gw, IndexOfOne(hr), x, order) ==>
           && ConsistentSnapshot(x)
           && EnvoyClusterFor(first, first.ports[0]) == EnvoyClusterFor(second, second.ports[0])
           && !Reaches(c, x, first, first.ports[0]) && !Reaches(c, x, second, second.ports[0])
  {
    var c, hr := TwoServices(a, b, s1, s2, p, e1, e2), SharingRoute(n, g, a, b, p);
    var gw, index, first, second := OneListener(n, g, port), IndexOfOne(hr), EndpointSide(a, s1, p), EndpointSide(b, s2, p);
    MixedBackends(n, g, a, b, s1, s2, p, e1, e2);
    SidesDiffer(a, b, s1, s2, p, e1, e2);
    OneRouteGateway(c, n, g, port, hr);
    forall x, order | IsBuild(c, gw, index, x, order)
      ensures ConsistentSnapshot(x)
      ensures !Reaches(c, x, first, first.ports[0]) && !Reaches(c, x, second, second.ports[0])
    {
      OneListenerOrder(n, g, port, order);
      OneRouteAlong(c, n, g, port, hr);
      BothAssigned(c, gw, index, x, order, first, second);
    }
  }

  lemma SidesDiffer(a: NamespacedName, b: NamespacedName, s1: string, s2: string, p: int32,
                    e1: seq<EndpointSlice>, e2: seq<EndpointSlice>)
    requires p > 0 && a != b && a.namespace + "-" + a.name == b.namespace + "-" + b.name
    requires EndpointsOf(e1, p) != EndpointsOf(e2, p)
    ensures var c, x, y := TwoServices(a, b, s1, s2, p, e1, e2), EndpointSide(a, s1, p), EndpointSide(b, s2, p);
      && Buildable(x) && Buildable(y) && PortName(x, x.ports[0]) == PortName(y, y.ports[0])
      && EnvoyClusterFor(x, x.ports[0]) == EnvoyClusterFor(y, y.ports[0])
      && AssignmentOf(c, x, x.ports[0]) != AssignmentOf(c, y, y.ports[0])
  {
  }

  /** Of two EDS backends with one cluster name and different assignments neither has the name for itself. */
  lemma BothAssigned(c: Cluster, gw: Gateway, index: Index, x: XdsResources, order: seq<int32>,
                     first: RouteBackend, second: RouteBackend)
    requires IsBuild(c, gw, index, x, order) && BackendsAlong(c, gw, index, order) == [first, second]
    requires |first.ports| == 1 && |second.ports| == 1 && first.resolution == EDS && second.resolution == EDS
    requires PortName(first, first.ports[0]) == PortName(second, second.ports[0])
    requires AssignmentOf(c, first, first.ports[0]) != AssignmentOf(c, second, second.ports[0])
    ensures ConsistentSnapshot(x)
    ensures !Reaches(c, x, first, first.ports[0]) && !Reaches(c, x, second, second.ports[0])
  {
    AllEdsConsistent(c, gw, index, x, order);
    var y, z := AssignmentOf(c, first, first.ports[0]), AssignmentOf(c, second, second.ports[0]);
    BothGiven(c, first, second);
    assert y in x.endpoints && z in x.endpoints && y.clusterName == z.clusterName;
  }

  lemma BothGiven(c: Cluster, first: RouteBackend, second: RouteBackend)
    requires |first.ports| == 1 && |second.ports| == 1 && first.resolution == EDS && second.resolution == EDS
    ensures AssignmentOf(c, first, first.ports[0]) in EdsOf(c, [first, second])
    ensures AssignmentOf(c, second, second.ports[0]) in EdsOf(c, [first, second])
  {
    var bs := [first, second];
    assert first in bs && second in bs && first.ports[0] in first.ports && second.ports[0] in second.ports;
    AssignedExactly(c, bs, AssignmentOf(c, first, first.ports[0]));
    AssignedExactly(c, bs, AssignmentOf(c, second, second.ports[0]));
  }

  lemma AllEdsConsistent(c: Cluster, gw: Gateway, index: Index, x: XdsResources, order: seq<int32>)
    requires IsBuild(c, gw, index, x, order)
    requires forall b :: b in BackendsAlong(c, gw, index, order) ==> b.resolution == EDS
    ensures ConsistentSnapshot(x)
  {
    assert NoSharedNames(BackendsAlong(c, gw, index, order));
    BuildConsistent(c, gw, index, x, order);
  }
}
