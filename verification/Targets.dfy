/** What references come to, told from the cached objects: where their clusters point, whether they can be built, and what
    is reported of them. */
module Targets {
  import opened Text
  import opened GatewayApi
  import opened EnvoyApi
  import opened Names
  import opened RouteMatching
  import opened Backends
  import opened RouteTranslation
  import opened RouteProperties
  import opened Clusters
  import opened ListenerConflicts
  import opened VirtualHosts
  import opened PortBuild
  import opened XdsBuild
  import opened XdsProperties

  /** The object that a reference names, in its own namespace unless it says another. */
  function Named(namespace: string, ref: BackendRef): NamespacedName {
    NamespacedName(match ref.namespace { case None => namespace case Some(n) => n }, ref.name)
  }

  // ----- where a cluster points -----

  /** Port p of backend b is what the reference means: the first port of its backend that the reference selects. */
  ghost predicate Means(c: Cluster, namespace: string, ref: BackendRef, b: RouteBackend, p: RouteBackendPort) {
    && Fetched(c, namespace, ref) == Ok(b) && ref.port.Some?
    && FirstSelected(b, ref.port.value, 0) == Some(p) && p in b.ports
  }

  /** The port number that a reference's int32 stands for. */
  function Number(q: int32): uint32 { if q < 0 then q + TWO_TO_THE_32 else q }

  /** Port k of the list is the first with this number. */
  predicate FirstNumbered(ports: seq<BackendPort>, q: uint32, k: nat) {
    k < |ports| && ports[k].number == q && forall j :: 0 <= j < k ==> ports[j].number != q
  }

  /** The cluster of a Backend dials the host of its FQDN at the port of the reference, or discovers endpoints under its
      own name; over TLS if the port says so, for the server name it says, or else for the host of the Backend. */
  ghost predicate PointsToBackend(d: XBackendDestination, key: NamespacedName, q: int32, cl: EnvoyCluster) {
    && cl.name == key.namespace + "-" + key.name + "-" + Decimal(Number(q))
    && (match d.destination
        case Fqdn(h) => cl.discovery == LogicalDns(h, Number(q))
        case ServiceDestination(_) => cl.discovery == Eds(cl.name)
        case OtherDestination(_) => false)
    && exists k: nat :: FirstNumbered(d.ports, Number(q), k)
         && (match d.ports[k].tls
             case UsableTLS(sni) => cl.tls == Some(if sni == "" then ServerOf(d, key.namespace) else sni)
             case _ => cl.tls == None)
  }

  /** The host that a Backend stands for. */
  function ServerOf(d: XBackendDestination, namespace: string): string {
    match d.destination
    case Fqdn(h) => h
    case ServiceDestination(s) => s + "." + namespace + ".svc.cluster.local"
    case OtherDestination(_) => ""
  }

  /** The cluster of a Service discovers endpoints under its own name, without TLS, for the target of the first port on
      offer. */
  ghost predicate PointsToService(s: Service, key: NamespacedName, q: int32, cl: EnvoyCluster) {
    && cl.discovery == Eds(cl.name) && cl.tls == None
    && exists k: nat :: IsFirstOffer(s.ports, q, k)
         && cl.name == key.namespace + "-synsvc-" + key.name + "-" + Signed(ToUint32(TargetOf(s.ports[k])))
  }

  ghost predicate PointsTo(c: Cluster, namespace: string, ref: BackendRef, cl: EnvoyCluster) {
    var key := Named(namespace, ref);
    && ref.port.Some?
    && if ref.kind == "Backend" then key in c.backends && PointsToBackend(c.backends[key], key, ref.port.value, cl)
       else ref.kind == "Service" && key in c.services && PointsToService(c.services[key], key, ref.port.value, cl)
  }

  /** The cluster that is made for what a reference means points where the cached object says. */
  lemma ClusterTarget(c: Cluster, namespace: string, ref: BackendRef, b: RouteBackend, p: RouteBackendPort)
    requires Means(c, namespace, ref, b, p)
    ensures PointsTo(c, namespace, ref, EnvoyClusterFor(b, p))
  {
    if ref.kind == "Backend" { BackendTarget(c, namespace, ref, b, p); } else { ServiceTarget(c, namespace, ref, b, p); }
  }

  lemma BackendTarget(c: Cluster, namespace: string, ref: BackendRef, b: RouteBackend, p: RouteBackendPort)
    requires Means(c, namespace, ref, b, p) && ref.kind == "Backend"
    ensures PointsTo(c, namespace, ref, EnvoyClusterFor(b, p))
  {
    var key, q := Named(namespace, ref), ref.port.value;
    var d := c.backends[key];
    var number := Number(q);
    assert ToUint32(q) == number;
    var k := FirstSelectedIsFirst(b, q, 0);
    assert b.ports[k] == p && |b.ports| == |d.ports|;
    forall j | 0 <= j < |d.ports| ensures b.ports[j].number == d.ports[j].number && b.ports[j].tls == d.ports[j].tls {
    }
    assert FirstNumbered(d.ports, number, k);
    assert ClusterName(key.namespace, key.name, number) == key.namespace + "-" + key.name + "-" + Decimal(number);
  }

  lemma ServiceTarget(c: Cluster, namespace: string, ref: BackendRef, b: RouteBackend, p: RouteBackendPort)
    requires Means(c, namespace, ref, b, p) && ref.kind != "Backend"
    ensures PointsTo(c, namespace, ref, EnvoyClusterFor(b, p))
  {
    var key, q := Named(namespace, ref), ref.port.value;
    var ports := c.services[key].ports;
    var k := ServicePortMeant(b, ports, q, p);
    ServicePortsPlain(ports);
    ServiceClusterName(key, p.number);
  }

  lemma ServiceClusterName(key: NamespacedName, number: uint32)
    ensures ClusterName(key.namespace, "synsvc-" + key.name, number) ==
              key.namespace + "-synsvc-" + key.name + "-" + Signed(number)
  {
    assert key.namespace + "-" + ("synsvc-" + key.name) == key.namespace + "-synsvc-" + key.name;
  }

  lemma ServicePortMeant(b: RouteBackend, ports: seq<ServicePort>, q: int32, p: RouteBackendPort) returns (k: nat)
    requires b.kind == ServiceSource && b.ports == PortsOfService(ports) && FirstSelected(b, q, 0) == Some(p)
    ensures IsFirstOffer(ports, q, k) && p.number == ToUint32(TargetOf(ports[k]))
  {
    var i := FirstSelectedIsFirst(b, q, 0);
    assert p in b.ports && SomeFrontend(b.ports, q);
    SomeOffered(ports, q);
    k := FirstOffer(ports, q);
    FirstOfferSelected(b, ports, q, k);
    SameNumber(p.number, TargetOf(ports[k]));
  }

  lemma SameNumber(n: uint32, q: int32)
    requires ToInt32(n) == q
    ensures n == ToUint32(q)
  {
  }

  lemma {:induction false} ServicePortsPlain(ports: seq<ServicePort>)
    ensures forall p :: p in PortsOfService(ports) ==> p.tls == NoTLS
  {
    if ports != [] { ServicePortsPlain(ports[..|ports| - 1]); }
  }

  /** The endpoints are those that the reference's Service slices hold, at the port that the reference means; for a Backend,
      the slices are those labelled with its own name. */
  ghost predicate EndpointsTold(c: Cluster, namespace: string, ref: BackendRef, endpoints: seq<LbEndpoint>) {
    var key := Named(namespace, ref);
    && ref.port.Some?
    && if ref.kind == "Backend" then HasEndpoints(c, key, Number(ref.port.value), endpoints)
       else
         && key in c.services
         && exists k: nat :: IsFirstOffer(c.services[key].ports, ref.port.value, k)
              && HasEndpoints(c, NamespacedName(key.namespace, "synsvc-" + key.name),
                              ToUint32(TargetOf(c.services[key].ports[k])), endpoints)
  }

  /** The addresses, at the port, of the endpoints in the slices labelled with this service, less those of endpoints that say
      they are not ready. */
  ghost predicate HasEndpoints(c: Cluster, service: NamespacedName, port: uint32, endpoints: seq<LbEndpoint>) {
    forall x :: x in endpoints <==>
      service in c.endpointSlices &&
      exists s, e :: s in c.endpointSlices[service] && e in s.endpoints && e.ready != Some(false) && x.address in e.addresses
        && x.port == port && (x.healthy <==> e.ready == Some(true))
  }

  lemma EndpointsFound(c: Cluster, service: NamespacedName, port: uint32)
    ensures HasEndpoints(c, service, port, EndpointsOf(SlicesOf(c, service.namespace, service.name), port))
  {
    var slices := SlicesOf(c, service.namespace, service.name);
    forall x { OfferedExactly(slices, port, x); }
    forall x, s, e | s in slices && e in s.endpoints && AddressOf(x, e, port) ensures Clusters.Offers(s.endpoints, port, x) {
    }
  }

  /** The assignment that is made for what a reference means has the endpoints that the slices hold. */
  lemma AssignmentTarget(c: Cluster, namespace: string, ref: BackendRef, b: RouteBackend, p: RouteBackendPort)
    requires Means(c, namespace, ref, b, p)
    ensures EndpointsTold(c, namespace, ref, AssignmentOf(c, b, p).endpoints)
  {
    var key, q := Named(namespace, ref), ref.port.value;
    if ref.kind == "Backend" {
      assert ToUint32(q) == Number(q) == p.number by { var k := FirstSelectedIsFirst(b, q, 0); }
      EndpointsFound(c, key, p.number);
    } else {
      var k := ServicePortMeant(b, c.services[key].ports, q, p);
      EndpointsFound(c, NamespacedName(key.namespace, "synsvc-" + key.name), p.number);
    }
  }

  // ----- what can be built -----

  /** The cached object has what a cluster needs: a Backend has ports, all without broken TLS settings, and a host if it is
      an FQDN; a Service has a port with a numeric target. */
  predicate CanBeBuilt(c: Cluster, namespace: string, ref: BackendRef) {
    var key := Named(namespace, ref);
    if ref.kind == "Backend" then
      && key in c.backends && c.backends[key].ports != []
      && (forall p :: p in c.backends[key].ports ==> p.tls != BrokenTLS)
      && (match c.backends[key].destination
          case Fqdn(h) => h != ""
          case ServiceDestination(_) => true
          case OtherDestination(_) => false)
    else ref.kind == "Service" && key in c.services && exists p :: p in c.services[key].ports && p.targetPort.IntPort?
  }

  lemma {:induction false} ServiceHasPorts(ports: seq<ServicePort>)
    ensures PortsOfService(ports) != [] <==> exists p :: p in ports && p.targetPort.IntPort?
  {
    if ports != [] {
      ServiceHasPorts(ports[..|ports| - 1]);
      assert ports == ports[..|ports| - 1] + [ports[|ports| - 1]];
    }
  }

  /** Clusters can be made for a reference exactly when the object allows it. */
  lemma ReferenceBuildableExactly(c: Cluster, namespace: string, ref: BackendRef)
    ensures ReferenceBuildable(c, namespace, ref) <==> CanBeBuilt(c, namespace, ref)
  {
    var key := Named(namespace, ref);
    if ref.kind == "Backend" && key in c.backends {
      var ports := c.backends[key].ports;
      TlsComesAlong(ports);
    } else if ref.kind == "Service" && key in c.services {
      ServiceHasPorts(c.services[key].ports);
      ServicePortsPlain(c.services[key].ports);
    }
  }

  lemma TlsComesAlong(ports: seq<BackendPort>)
    ensures |PortsOfBackend(ports)| == |ports|
    ensures (forall p :: p in PortsOfBackend(ports) ==> p.tls != BrokenTLS) <==>
            forall p :: p in ports ==> p.tls != BrokenTLS
  {
    var made := PortsOfBackend(ports);
    forall k | 0 <= k < |ports| ensures made[k].tls == ports[k].tls && made[k] in made && ports[k] in ports {
    }
    if forall p :: p in made ==> p.tls != BrokenTLS {
      forall p | p in ports ensures p.tls != BrokenTLS {
        var k :| 0 <= k < |ports| && ports[k] == p;
        assert made[k].tls == p.tls;
      }
    }
  }

  /** The listener allows no kind of routes but HTTPRoute of the Gateway API. */
  predicate OnlyHTTPRoutes(l: Listener) {
    l.allowedRoutes.Some? ==>
      forall k :: k in l.allowedRoutes.value.kinds ==>
        k.kind == "HTTPRoute" && (k.group.None? || k.group == Some("gateway.networking.k8s.io"))
  }

  lemma KindsValidExactly(l: Listener)
    ensures KindsValid(l) <==> OnlyHTTPRoutes(l)
  {
    assert HTTPROUTE_KIND == "HTTPRoute" && GATEWAY_GROUP == "gateway.networking.k8s.io";
  }

  /** A Gateway can be built exactly when its listeners allow no other kinds of routes and are in no conflict, and every
      reference of every forwarding rule that is linked to it names an object that allows it. */
  lemma BuildableExactly(c: Cluster, gw: Gateway, index: Index)
    ensures BuildableGateway(c, gw, index) <==>
            && (forall l :: l in gw.listeners ==> OnlyHTTPRoutes(l) && !NameInConflict(gw.listeners, l.name))
            && forall a :: Linked(gw, index, a) ==> RouteCanBeBuilt(c, a.route)
  {
    forall l | l in gw.listeners { KindsValidExactly(l); }
    forall a | Linked(gw, index, a) ensures RouteBuildable(c, a.route) <==> RouteCanBeBuilt(c, a.route) {
      RouteCanBeBuiltExactly(c, a.route);
    }
  }

  ghost predicate RouteCanBeBuilt(c: Cluster, hr: HTTPRoute) {
    forall i: nat, j: nat, ref :: Forwards(c, hr, i, j) && ref in hr.rules[i].backendRefs ==>
      CanBeBuilt(c, hr.namespace, ref)
  }

  lemma RouteCanBeBuiltExactly(c: Cluster, hr: HTTPRoute)
    ensures RouteBuildable(c, hr) <==> RouteCanBeBuilt(c, hr)
  {
    RouteBuildableExactly(c, hr);
    forall ref: BackendRef ensures ReferenceBuildable(c, hr.namespace, ref) <==> CanBeBuilt(c, hr.namespace, ref) {
      ReferenceBuildableExactly(c, hr.namespace, ref);
    }
  }

  /** So broken TLS settings of any port of a Backend fail the build of every Gateway with a route that forwards to it. */
  lemma BrokenTlsBlocksBuild(c: Cluster, hr: HTTPRoute, i: nat, j: nat, ref: BackendRef, gw: Gateway, index: Index,
                             l: Listener, p: BackendPort)
    requires Linked(gw, index, Link(l, hr)) && Forwards(c, hr, i, j) && ref in hr.rules[i].backendRefs
    requires ref.kind == "Backend" && Named(hr.namespace, ref) in c.backends
    requires p in c.backends[Named(hr.namespace, ref)].ports && p.tls == BrokenTLS
    ensures !BuildableGateway(c, gw, index)
  {
    ReferenceBuildableExactly(c, hr.namespace, ref);
    RouteBuildableExactly(c, hr);
    assert !RouteBuildable(c, Link(l, hr).route);
  }

  // ----- what is reported -----

  /** What is wrong with a reference, told from the cached object: it is missing or of a kind that is not supported; or the
      reference gets traffic and means no port. */
  function ReferenceError(c: Cluster, namespace: string, ref: BackendRef): Option<Reason> {
    var key := Named(namespace, ref);
    if ref.kind == "Backend" then
      if key !in c.backends then Some(ReasonBackendNotFound)
      else if c.backends[key].destination.OtherDestination? then Some(ReasonUnsupportedValue)
      else if ref.weight == Some(0) then None
      else if ref.port.Some? && exists p :: p in c.backends[key].ports && p.number == ToUint32(ref.port.value) then None
      else Some(ReasonResolvedRefs)
    else if ref.kind == "Service" then
      if key !in c.services then Some(ReasonBackendNotFound)
      else if ref.weight == Some(0) then None
      else if ref.port.Some? && exists p :: p in c.services[key].ports && Backends.Offers(p, ref.port.value) then None
      else Some(ReasonResolvedRefs)
    else Some(ReasonUnsupportedValue)
  }

  lemma ReferenceErrorExactly(c: Cluster, namespace: string, ref: BackendRef)
    ensures ReferenceError(c, namespace, ref) ==
              match Resolve(c, namespace, ref) { case Ok(_) => None case Err(e) => Some(e) }
  {
    var key := Named(namespace, ref);
    if Fetched(c, namespace, ref).Ok? && ref.port.Some? {
      var b, q := Fetched(c, namespace, ref).value, ref.port.value;
      SomeSelected(b, q);
      if ref.kind == "Backend" {
        NumberSelected(b, c.backends[key].ports, q);
      } else {
        SomeOffered(c.services[key].ports, q);
      }
    }
  }

  lemma NumberSelected(b: RouteBackend, ports: seq<BackendPort>, q: int32)
    requires b.kind == BackendSource && b.ports == PortsOfBackend(ports)
    ensures (exists p :: p in b.ports && Selects(b.kind, p, q)) <==> exists p :: p in ports && p.number == ToUint32(q)
  {
    if p :| p in b.ports && Selects(b.kind, p, q) {
      var k :| 0 <= k < |b.ports| && b.ports[k] == p;
      assert ports[k] in ports;
    }
    if p :| p in ports && p.number == ToUint32(q) {
      var k :| 0 <= k < |ports| && ports[k] == p;
      assert b.ports[k] in b.ports && Selects(b.kind, b.ports[k], q);
    }
  }

  /** The error of the first reference that has one. */
  function FirstError(c: Cluster, namespace: string, refs: seq<BackendRef>): Option<Reason> {
    if refs == [] then None
    else
      var before := FirstError(c, namespace, refs[..|refs| - 1]);
      if before.Some? then before else ReferenceError(c, namespace, refs[|refs| - 1])
  }

  lemma {:induction false} FirstErrorExactly(c: Cluster, namespace: string, refs: seq<BackendRef>)
    ensures FirstError(c, namespace, refs) ==
              match ResolveAll(c, namespace, refs) { case Ok(_) => None case Err(e) => Some(e) }
    ensures ResolveAll(c, namespace, refs).Ok? ==>
              (ClustersIn(ResolveAll(c, namespace, refs).value) == [] <==> forall r :: r in refs ==> r.weight == Some(0))
  {
    if refs != [] {
      var front, last := refs[..|refs| - 1], refs[|refs| - 1];
      FirstErrorExactly(c, namespace, front);
      ReferenceErrorExactly(c, namespace, last);
      assert refs == front + [last];
      if ResolveAll(c, namespace, refs).Ok? { ResolveAllStep(c, namespace, refs); }
    }
  }

  /** What a pair reports: its match is rejected; or its rule has no redirect, and the first reference with an error
      decides, or all of them have weight zero. */
  lemma PairErrorExactly(c: Cluster, hr: HTTPRoute, i: nat, j: nat)
    requires IsPair(hr, i, j)
    ensures var refs, failure := hr.rules[i].backendRefs, Compiled(c, hr, i, j).failure;
      if !Translatable(MatchAt(hr, i, j)) then failure == Some(ReasonUnsupportedValue)
      else if exists f :: f in hr.rules[i].filters && Redirects(f) then failure == None
      else if FirstError(c, hr.namespace, refs).Some? then failure == FirstError(c, hr.namespace, refs)
      else if forall r :: r in refs ==> r.weight == Some(0) then failure == Some(ReasonUnsupportedValue)
      else failure == None
  {
    FirstErrorExactly(c, hr.namespace, hr.rules[i].backendRefs);
    RedirectFound(hr.rules[i].filters);
  }

  lemma {:induction false} RedirectFound(fs: seq<HTTPRouteFilter>)
    ensures FiltersOf(fs).redirect.Some? <==> exists f :: f in fs && Redirects(f)
  {
    if fs != [] {
      var front, last := fs[..|fs| - 1], fs[|fs| - 1];
      RedirectFound(front);
      assert fs == front + [last] && last in fs;
      assert forall f :: f in fs <==> f in front || f == last;
    }
  }

  /** The pair fails with this reason, and no pair between it and the position fails. */
  ghost predicate LastFailure(c: Cluster, hr: HTTPRoute, i: nat, j: nat, a: nat, b: nat, e: Reason) {
    && IsPair(hr, a, b) && Earlier(a, b, i, j) && Compiled(c, hr, a, b).failure == Some(e)
    && forall x, y :: IsPair(hr, x, y) && Earlier(a, b, x, y) && Earlier(x, y, i, j) ==> Compiled(c, hr, x, y).failure.None?
  }

  /** The condition tells which pairs before the position fail: none, or at last one for its reason. */
  ghost predicate TellsFailures(c: Cluster, hr: HTTPRoute, i: nat, j: nat, condition: Condition) {
    if condition.status == ConditionTrue then
      && condition == Condition(ResolvedRefs, ConditionTrue, ReasonResolvedRefs)
      && forall x, y :: IsPair(hr, x, y) && Earlier(x, y, i, j) ==> Compiled(c, hr, x, y).failure.None?
    else
      && condition == Condition(ResolvedRefs, ConditionFalse, condition.reason)
      && exists a, b :: LastFailure(c, hr, i, j, a, b, condition.reason)
  }

  lemma {:induction false} ConditionReasonUpTo(c: Cluster, hr: HTTPRoute, i: nat, j: nat)
    requires IsPosition(hr, i, j)
    ensures TellsFailures(c, hr, i, j, UpTo(c, hr, i, j).condition)
    decreases i, j
  {
    if j > 0 {
      ConditionReasonUpTo(c, hr, i, j - 1);
      ReasonOneMore(c, hr, i, j - 1);
    } else if i > 0 {
      ConditionReasonUpTo(c, hr, i - 1, |MatchesOf(hr.rules[i - 1])|);
      ReasonNextRule(c, hr, i, UpTo(c, hr, i, 0).condition);
    }
  }

  lemma ReasonOneMore(c: Cluster, hr: HTTPRoute, i: nat, j: nat)
    requires IsPair(hr, i, j) && TellsFailures(c, hr, i, j, UpTo(c, hr, i, j).condition)
    ensures TellsFailures(c, hr, i, j + 1, UpTo(c, hr, i, j + 1).condition)
  {
    var before := UpTo(c, hr, i, j).condition;
    match Compiled(c, hr, i, j).failure
    case Some(e) => assert LastFailure(c, hr, i, j + 1, i, j, e);
    case None =>
      assert forall x, y :: Earlier(x, y, i, j + 1) ==> Earlier(x, y, i, j) || (x == i && y == j);
      if before.status != ConditionTrue {
        var a, b :| LastFailure(c, hr, i, j, a, b, before.reason);
        assert LastFailure(c, hr, i, j + 1, a, b, before.reason);
      }
  }

  lemma ReasonNextRule(c: Cluster, hr: HTTPRoute, i: nat, condition: Condition)
    requires 0 < i <= |hr.rules| && TellsFailures(c, hr, i - 1, |MatchesOf(hr.rules[i - 1])|, condition)
    ensures TellsFailures(c, hr, i, 0, condition)
  {
    var n := |MatchesOf(hr.rules[i - 1])|;
    assert forall x, y :: IsPair(hr, x, y) ==> (Earlier(x, y, i, 0) <==> Earlier(x, y, i - 1, n));
    if condition.status != ConditionTrue {
      var a, b :| LastFailure(c, hr, i - 1, n, a, b, condition.reason);
      assert LastFailure(c, hr, i, 0, a, b, condition.reason);
    }
  }

  /** The condition of a route has the reason of the last pair that fails, or says that all references are resolved. */
  lemma ConditionReasonExactly(c: Cluster, hr: HTTPRoute)
    ensures TellsFailures(c, hr, |hr.rules|, 0, Expanded(c, hr).condition)
  {
    ConditionReasonUpTo(c, hr, |hr.rules|, 0);
  }
}
