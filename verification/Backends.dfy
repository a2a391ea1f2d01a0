/** Backend references: resolving them, and the weighted clusters a rule forwards to. */
module Backends {
  import opened Text
  import opened GatewayApi
  import opened EnvoyApi
  import opened Names

  datatype SourceKind = BackendSource | ServiceSource

  datatype Resolution = DNS | EDS

  /** frontendPort is only set for Services. */
  datatype RouteBackendPort = RouteBackendPort(number: uint32, frontendPort: uint32, tls: BackendTLS)

  datatype RouteBackend = RouteBackend(
    kind: SourceKind, name: string, namespace: string,
    hostname: string, ports: seq<RouteBackendPort>, resolution: Resolution)

  /** The name that stands for a backend in cluster names; Services are kept apart by a prefix. */
  function BackendClusterName(b: RouteBackend): string {
    match b.kind
    case BackendSource => b.name
    case ServiceSource => "synsvc-" + b.name
  }

  // ----- looking up a backend -----

  function NamespaceOf(namespace: string, ref: BackendRef): string {
    match ref.namespace case None => namespace case Some(n) => n
  }

  /** The ports a Service port contributes: none when its target port is named. */
  function PortsOfServicePort(p: ServicePort): seq<RouteBackendPort> {
    match p.targetPort
    case NamedPort(_) => []
    case IntPort(v) => [RouteBackendPort(if v > 0 then ToUint32(v) else ToUint32(p.port), ToUint32(p.port), NoTLS)]
  }

  function PortsOfService(ports: seq<ServicePort>): seq<RouteBackendPort> {
    if ports == [] then []
    else PortsOfService(ports[..|ports| - 1]) + PortsOfServicePort(ports[|ports| - 1])
  }

  function PortsOfBackend(ports: seq<BackendPort>): seq<RouteBackendPort> {
    seq(|ports|, i requires 0 <= i < |ports| => RouteBackendPort(ports[i].number, 0, ports[i].tls))
  }

  function ServiceHostname(name: string, namespace: string): string {
    name + "." + namespace + ".svc.cluster.local"
  }

  /** The backend a reference names, or why there is none. */
  function Fetched(c: Cluster, namespace: string, ref: BackendRef): Result<RouteBackend, Reason> {
    var ns := NamespaceOf(namespace, ref);
    var key := NamespacedName(ns, ref.name);
    if ref.kind == "Backend" then
      if key !in c.backends then Err(ReasonBackendNotFound)
      else
        var ports := PortsOfBackend(c.backends[key].ports);
        match c.backends[key].destination
        case Fqdn(h) => Ok(RouteBackend(BackendSource, ref.name, ns, h, ports, DNS))
        case ServiceDestination(s) => Ok(RouteBackend(BackendSource, ref.name, ns, ServiceHostname(s, ns), ports, EDS))
        case OtherDestination(_) => Err(ReasonUnsupportedValue)
    else if ref.kind == "Service" then
      if key !in c.services then Err(ReasonBackendNotFound)
      else
        var ports := PortsOfService(c.services[key].ports);
        Ok(RouteBackend(ServiceSource, ref.name, ns, ServiceHostname(ref.name, ns), ports, EDS))
    else Err(ReasonUnsupportedValue)
  }

  method FetchBackend(c: Cluster, namespace: string, ref: BackendRef) returns (r: Result<RouteBackend, Reason>)
    ensures r == Fetched(c, namespace, ref)
  {
    var ns := NamespaceOf(namespace, ref);
    var key := NamespacedName(ns, ref.name);
    if ref.kind == "Backend" {
      if key !in c.backends {
        return Err(ReasonBackendNotFound);
      }
      var backend := c.backends[key];
      var ports: seq<RouteBackendPort> := [];
      for i := 0 to |backend.ports|
        invariant ports == PortsOfBackend(backend.ports[..i])
      {
        ports := ports + [RouteBackendPort(backend.ports[i].number, 0, backend.ports[i].tls)];
      }
      assert backend.ports[..|backend.ports|] == backend.ports;
      match backend.destination
      case Fqdn(h) => r := Ok(RouteBackend(BackendSource, ref.name, ns, h, ports, DNS));
      case ServiceDestination(s) =>
        r := Ok(RouteBackend(BackendSource, ref.name, ns, ServiceHostname(s, ns), ports, EDS));
      case OtherDestination(_) => r := Err(ReasonUnsupportedValue);
    } else if ref.kind == "Service" {
      if key !in c.services {
        return Err(ReasonBackendNotFound);
      }
      var svc := c.services[key];
      var ports: seq<RouteBackendPort> := [];
      for i := 0 to |svc.ports|
        invariant ports == PortsOfService(svc.ports[..i])
      {
        var port := svc.ports[i];
        assert svc.ports[..i + 1][..i] == svc.ports[..i];
        var number := ToUint32(port.port);
        if port.targetPort.IntPort? && port.targetPort.value > 0 {
          number := ToUint32(port.targetPort.value);
        } else if port.targetPort.NamedPort? {
          continue;
        }
        ports := ports + [RouteBackendPort(number, ToUint32(port.port), NoTLS)];
      }
      assert svc.ports[..|svc.ports|] == svc.ports;
      r := Ok(RouteBackend(ServiceSource, ref.name, ns, ServiceHostname(ref.name, ns), ports, EDS));
    } else {
      r := Err(ReasonUnsupportedValue);
    }
  }

  // ----- one reference -----

  /** True when a reference's port means this port: the target port of a Backend, the frontend port of a Service. */
  predicate Selects(kind: SourceKind, p: RouteBackendPort, port: int32) {
    match kind
    case BackendSource => p.number == ToUint32(port)
    case ServiceSource => p.frontendPort == ToUint32(port)
  }

  /** The first port that a reference's port selects. */
  function FirstSelected(b: RouteBackend, port: int32, from: nat): Option<RouteBackendPort>
    requires from <= |b.ports|
    decreases |b.ports| - from
  {
    if from == |b.ports| then None
    else if Selects(b.kind, b.ports[from], port) then Some(b.ports[from])
    else FirstSelected(b, port, from + 1)
  }

  /** The port number Envoy is sent to, carried as an int32. */
  method ResolvePort(b: RouteBackend, port: Option<int32>) returns (r: Option<int32>)
    ensures r == ResolvedPort(b, port)
  {
    if port.None? {
      return None;
    }
    r := None;
    for i := 0 to |b.ports|
      invariant r == None
      invariant FirstSelected(b, port.value, 0) == FirstSelected(b, port.value, i)
    {
      if Selects(b.kind, b.ports[i], port.value) {
        r := Some(ToInt32(b.ports[i].number));
        break;
      }
    }
  }

  function ResolvedPort(b: RouteBackend, port: Option<int32>): Option<int32> {
    if port.None? then None
    else match FirstSelected(b, port.value, 0)
      case None => None
      case Some(p) => Some(ToInt32(p.number))
  }

  function WeightOf(ref: BackendRef): int32 {
    match ref.weight case None => 1 case Some(w) => w
  }

  function WeightedClusterFor(b: RouteBackend, port: int32, weight: int32): ClusterWeight {
    ClusterWeight(ClusterName(b.namespace, BackendClusterName(b), port), ToUint32(weight),
                  if b.resolution == DNS then Some(b.hostname) else None)
  }

  /** What one reference contributes: its backend, and a weighted cluster unless its weight is zero. */
  datatype Contribution = Contribution(backend: RouteBackend, cluster: Option<ClusterWeight>)

  function Resolve(c: Cluster, namespace: string, ref: BackendRef): Result<Contribution, Reason> {
    match Fetched(c, namespace, ref)
    case Err(e) => Err(e)
    case Ok(b) =>
      if WeightOf(ref) == 0 then Ok(Contribution(b, None))
      else match ResolvedPort(b, ref.port)
        case None => Err(ReasonResolvedRefs)
        case Some(port) => Ok(Contribution(b, Some(WeightedClusterFor(b, port, WeightOf(ref)))))
  }

  // ----- all references of a rule -----

  /** The contributions in order, or the error of the first reference that fails. */
  function ResolveAll(c: Cluster, namespace: string, refs: seq<BackendRef>): (r: Result<seq<Contribution>, Reason>)
    ensures r.Ok? ==> |r.value| == |refs|
  {
    if refs == [] then Ok([])
    else match ResolveAll(c, namespace, refs[..|refs| - 1])
      case Err(e) => Err(e)
      case Ok(rs) =>
        match Resolve(c, namespace, refs[|refs| - 1])
        case Err(e) => Err(e)
        case Ok(x) => Ok(rs + [x])
  }

  function ClustersIn(rs: seq<Contribution>): seq<ClusterWeight> {
    if rs == [] then []
    else
      var last := rs[|rs| - 1].cluster;
      ClustersIn(rs[..|rs| - 1]) + if last.Some? then [last.value] else []
  }

  function BackendsIn(rs: seq<Contribution>): (bs: seq<RouteBackend>)
    ensures |bs| == |rs| && forall i :: 0 <= i < |rs| ==> bs[i] == rs[i].backend
  {
    seq(|rs|, i requires 0 <= i < |rs| => rs[i].backend)
  }

  datatype Forwarding = Forwarding(action: RouteAction, backends: seq<RouteBackend>)

  function ForwardingOf(c: Cluster, namespace: string, refs: seq<BackendRef>): Result<Forwarding, Reason> {
    match ResolveAll(c, namespace, refs)
    case Err(e) => Err(e)
    case Ok(rs) =>
      if ClustersIn(rs) == [] then Err(ReasonUnsupportedValue)
      else Ok(Forwarding(RouteAction(ClustersIn(rs), None, None, ""), BackendsIn(rs)))
  }

  /** A failed prefix decides the whole list. */
  lemma {:induction false} FirstErrorWins(c: Cluster, namespace: string, refs: seq<BackendRef>, i: nat)
    requires i <= |refs| && ResolveAll(c, namespace, refs[..i]).Err?
    ensures ResolveAll(c, namespace, refs) == ResolveAll(c, namespace, refs[..i])
    decreases |refs| - i
  {
    if i == |refs| {
      assert refs[..i] == refs;
    } else {
      assert refs[..i + 1][..i] == refs[..i];
      FirstErrorWins(c, namespace, refs, i + 1);
    }
  }

  /** Looks up the backend of one reference, and the port it is sent to unless it gets no traffic. */
  method ResolveReference(c: Cluster, namespace: string, ref: BackendRef) returns (r: Result<Contribution, Reason>)
    ensures r == Resolve(c, namespace, ref)
  {
    var backend := FetchBackend(c, namespace, ref);
    if backend.Err? {
      return Err(backend.error);
    }
    var b := backend.value;
    if WeightOf(ref) == 0 {
      return Ok(Contribution(b, None));
    }
    var port := ResolvePort(b, ref.port);
    if port.None? {
      return Err(ReasonResolvedRefs);
    }
    r := Ok(Contribution(b, Some(WeightedClusterFor(b, port.value, WeightOf(ref)))));
  }

  lemma ResolveAllOneMore(c: Cluster, namespace: string, refs: seq<BackendRef>, i: nat, rs: seq<Contribution>)
    requires i < |refs| && ResolveAll(c, namespace, refs[..i]) == Ok(rs)
    ensures Resolve(c, namespace, refs[i]).Ok? ==>
              ResolveAll(c, namespace, refs[..i + 1]) == Ok(rs + [Resolve(c, namespace, refs[i]).value])
    ensures Resolve(c, namespace, refs[i]).Err? ==>
              ResolveAll(c, namespace, refs[..i + 1]) == Err(Resolve(c, namespace, refs[i]).error)
  {
    var more := refs[..i + 1];
    assert more[..|more| - 1] == refs[..i] && more[|more| - 1] == refs[i];
  }

  lemma PartsOneMore(rs: seq<Contribution>, x: Contribution)
    ensures BackendsIn(rs + [x]) == BackendsIn(rs) + [x.backend]
    ensures ClustersIn(rs + [x]) == ClustersIn(rs) + if x.cluster.Some? then [x.cluster.value] else []
  {
    var more := rs + [x];
    assert more[..|more| - 1] == rs && more[|more| - 1] == x;
  }

  method BuildHTTPRouteAction(c: Cluster, namespace: string, refs: seq<BackendRef>)
    returns (r: Result<Forwarding, Reason>)
    ensures r == ForwardingOf(c, namespace, refs)
  {
    var clusters: seq<ClusterWeight> := [];
    var validBackends: seq<RouteBackend> := [];
    ghost var rs: seq<Contribution> := [];
    for i := 0 to |refs|
      invariant ResolveAll(c, namespace, refs[..i]) == Ok(rs)
      invariant clusters == ClustersIn(rs)
      invariant validBackends == BackendsIn(rs)
    {
      ResolveAllOneMore(c, namespace, refs, i, rs);
      var x := ResolveReference(c, namespace, refs[i]);
      if x.Err? {
        FirstErrorWins(c, namespace, refs, i + 1);
        return Err(x.error);
      }
      validBackends := validBackends + [x.value.backend];
      if x.value.cluster.Some? {
        clusters := clusters + [x.value.cluster.value];
      }
      PartsOneMore(rs, x.value);
      rs := rs + [x.value];
    }
    assert refs[..|refs|] == refs;
    if |clusters| == 0 {
      return Err(ReasonUnsupportedValue);
    }
    r := Ok(Forwarding(RouteAction(clusters, None, None, ""), validBackends));
  }

  // ----- frontend and target ports -----

  lemma {:induction false} PortsOfServiceAppend(a: seq<ServicePort>, b: seq<ServicePort>)
    ensures PortsOfService(a + b) == PortsOfService(a) + PortsOfService(b)
  {
    if b == [] {
      assert a + b == a;
    } else {
      var s := a + b;
      assert s[..|s| - 1] == a + b[..|b| - 1] && s[|s| - 1] == b[|b| - 1];
      PortsOfServiceAppend(a, b[..|b| - 1]);
      ConcatAssociative(PortsOfService(a), PortsOfService(b[..|b| - 1]), PortsOfServicePort(b[|b| - 1]));
    }
  }

  /** A Service port that a reference to frontend port q can mean. */
  predicate Offers(p: ServicePort, q: int32) { p.port == q && p.targetPort.IntPort? }

  lemma OfferedByPort(p: ServicePort, q: int32)
    ensures SomeFrontend(PortsOfServicePort(p), q) <==> Offers(p, q)
  {
    if Offers(p, q) { assert PortsOfServicePort(p)[0] in PortsOfServicePort(p); }
  }

  predicate SomeFrontend(bps: seq<RouteBackendPort>, q: int32) { exists p :: p in bps && p.frontendPort == ToUint32(q) }

  lemma {:induction false} SomeOffered(ports: seq<ServicePort>, q: int32)
    ensures SomeFrontend(PortsOfService(ports), q) <==> exists p :: p in ports && Offers(p, q)
  {
    if ports != [] {
      var front, last := ports[..|ports| - 1], ports[|ports| - 1];
      SomeOffered(front, q);
      OfferedByPort(last, q);
      assert ports == front + [last];
      var before, more := PortsOfService(front), PortsOfServicePort(last);
      assert forall p :: p in before + more <==> p in before || p in more;
    }
  }

  /** The port a Service's frontend port is forwarded to: the target port, or the port itself if that is not positive. */
  function TargetOf(p: ServicePort): int32
    requires p.targetPort.IntPort?
  {
    if p.targetPort.value > 0 then p.targetPort.value else p.port
  }

  predicate IsFirstOffer(ports: seq<ServicePort>, q: int32, k: nat) {
    k < |ports| && Offers(ports[k], q) && forall j :: 0 <= j < k ==> !Offers(ports[j], q)
  }

  /** A weighted reference to a Service resolves exactly when some port of the Service has the number of the
      reference and a numeric target, and then it means the target of the first such port. */
  lemma ServiceReferenceExactly(c: Cluster, namespace: string, ref: BackendRef)
    requires ref.kind == "Service" && ref.port.Some? && WeightOf(ref) != 0
    requires NamespacedName(NamespaceOf(namespace, ref), ref.name) in c.services
    ensures var ns := NamespaceOf(namespace, ref);
      var ports, r := c.services[NamespacedName(ns, ref.name)].ports, Resolve(c, namespace, ref);
      && (r.Ok? <==> exists p :: p in ports && Offers(p, ref.port.value))
      && (r.Ok? ==>
            r.value.cluster.Some? &&
            exists k: nat ::
              IsFirstOffer(ports, ref.port.value, k) &&
              r.value.cluster.value.name == ClusterName(ns, "synsvc-" + ref.name, TargetOf(ports[k])))
  {
    var b, q := Fetched(c, namespace, ref).value, ref.port.value;
    var ports := c.services[NamespacedName(b.namespace, ref.name)].ports;
    SomeOffered(ports, q);
    SomeSelected(b, q);
    if p :| p in ports && Offers(p, q) {
      var k := FirstOffer(ports, q);
      FirstOfferSelected(b, ports, q, k);
    }
  }

  lemma {:induction false} FirstOffer(ports: seq<ServicePort>, q: int32) returns (k: nat)
    requires exists p :: p in ports && Offers(p, q)
    ensures IsFirstOffer(ports, q, k)
  {
    k := 0;
    while !Offers(ports[k], q)
      invariant k < |ports| && forall j :: 0 <= j < k ==> !Offers(ports[j], q)
      decreases |ports| - k
    {
      k := k + 1;
    }
  }

  /** The first selected port of a Service's backend is the one made from the first port on offer. */
  lemma FirstOfferSelected(b: RouteBackend, ports: seq<ServicePort>, q: int32, k: nat)
    requires b.kind == ServiceSource && b.ports == PortsOfService(ports)
    requires IsFirstOffer(ports, q, k)
    ensures ResolvedPort(b, Some(q)) == Some(TargetOf(ports[k]))
  {
    var before, made := PortsOfService(ports[..k]), PortsOfServicePort(ports[k])[0];
    PortsAround(ports, k);
    SomeOffered(ports[..k], q);
    forall j | 0 <= j < |before| ensures !Selects(b.kind, b.ports[j], q) {
      assert b.ports[j] == before[j] && before[j] in before;
    }
    SelectedAt(b, q, 0, |before|);
    TargetNumber(ports[k], made);
  }

  lemma PortsAround(ports: seq<ServicePort>, k: nat)
    requires k < |ports| && ports[k].targetPort.IntPort?
    ensures PortsOfService(ports[..k]) + PortsOfServicePort(ports[k]) <= PortsOfService(ports)
  {
    var front, rest := ports[..k + 1], ports[k + 1..];
    assert ports == front + rest;
    PortsOfServiceAppend(front, rest);
    PortsOneMore(ports, k);
  }

  lemma PortsOneMore(ports: seq<ServicePort>, k: nat)
    requires k < |ports|
    ensures PortsOfService(ports[..k + 1]) == PortsOfService(ports[..k]) + PortsOfServicePort(ports[k])
  {
    var front := ports[..k + 1];
    assert front[..|front| - 1] == ports[..k] && front[|front| - 1] == ports[k];
  }

  lemma TargetNumber(p: ServicePort, made: RouteBackendPort)
    requires p.targetPort.IntPort? && made == PortsOfServicePort(p)[0]
    ensures ToInt32(made.number) == TargetOf(p)
  {
  }

  lemma {:induction false} SelectedAt(b: RouteBackend, port: int32, from: nat, k: nat)
    requires from <= k < |b.ports| && Selects(b.kind, b.ports[k], port)
    requires forall j :: from <= j < k ==> !Selects(b.kind, b.ports[j], port)
    ensures FirstSelected(b, port, from) == Some(b.ports[k])
    decreases k - from
  {
    if from < k { SelectedAt(b, port, from + 1, k); }
  }

  lemma SomeSelected(b: RouteBackend, port: int32)
    ensures FirstSelected(b, port, 0).Some? <==> exists p :: p in b.ports && Selects(b.kind, p, port)
  {
    if FirstSelected(b, port, 0).Some? {
      var k := FirstSelectedIsFirst(b, port, 0);
      assert b.ports[k] in b.ports;
    } else if p :| p in b.ports && Selects(b.kind, p, port) {
      var k :| 0 <= k < |b.ports| && b.ports[k] == p;
      NoneSelectedBelow(b, port, 0, k);
    }
  }

  lemma {:induction false} NoneSelectedBelow(b: RouteBackend, port: int32, from: nat, k: nat)
    requires from <= k < |b.ports| && FirstSelected(b, port, from).None?
    ensures !Selects(b.kind, b.ports[k], port)
    decreases k - from
  {
    if from < k { NoneSelectedBelow(b, port, from + 1, k); }
  }

  // ----- names and weights are faithful -----

  /** The references that carry traffic, in order. */
  function NonZero(refs: seq<BackendRef>): seq<BackendRef> {
    if refs == [] then []
    else NonZero(refs[..|refs| - 1]) + if refs[|refs| - 1].weight == Some(0) then [] else [refs[|refs| - 1]]
  }

  /** The sum of the weights; a reference without one has weight 1. */
  function SumOfRefWeights(refs: seq<BackendRef>): int {
    if refs == [] then 0
    else
      SumOfRefWeights(refs[..|refs| - 1]) + match refs[|refs| - 1].weight { case None => 1 case Some(w) => w }
  }

  function TotalWeight(cs: seq<ClusterWeight>): int {
    if cs == [] then 0 else TotalWeight(cs[..|cs| - 1]) + cs[|cs| - 1].weight
  }

  /** A weighted cluster stands for a reference: it carries the reference's weight and points at the number of the
      first of the backend's ports that the reference's port selects. */
  ghost predicate StandsFor(c: Cluster, namespace: string, ref: BackendRef, cw: ClusterWeight) {
    var f := Fetched(c, namespace, ref);
    && f.Ok? && ref.port.Some?
    && (match ref.weight case None => cw.weight == 1 case Some(w) => cw.weight == if w < 0 then w + TWO_TO_THE_32 else w)
    && cw.hostRewrite == (if f.value.resolution == DNS then Some(f.value.hostname) else None)
    && exists k :: 0 <= k < |f.value.ports|
         && Selects(f.value.kind, f.value.ports[k], ref.port.value)
         && (forall j :: 0 <= j < k ==> !Selects(f.value.kind, f.value.ports[j], ref.port.value))
         && cw.name == ClusterName(f.value.namespace, BackendClusterName(f.value), ToInt32(f.value.ports[k].number))
  }

  lemma {:induction false} FirstSelectedIsFirst(b: RouteBackend, port: int32, from: nat) returns (k: nat)
    requires from <= |b.ports| && FirstSelected(b, port, from).Some?
    ensures from <= k < |b.ports| && b.ports[k] == FirstSelected(b, port, from).value
    ensures Selects(b.kind, b.ports[k], port) && forall j :: from <= j < k ==> !Selects(b.kind, b.ports[j], port)
    decreases |b.ports| - from
  {
    if Selects(b.kind, b.ports[from], port) { k := from; } else { k := FirstSelectedIsFirst(b, port, from + 1); }
  }

  lemma ContributionStandsFor(c: Cluster, namespace: string, ref: BackendRef)
    requires Resolve(c, namespace, ref).Ok? && WeightOf(ref) != 0
    ensures Resolve(c, namespace, ref).value.cluster.Some?
    ensures StandsFor(c, namespace, ref, Resolve(c, namespace, ref).value.cluster.value)
  {
    var b := Fetched(c, namespace, ref).value;
    var k := FirstSelectedIsFirst(b, ref.port.value, 0);
  }

  /** The last step of resolving a list. */
  lemma ResolveAllStep(c: Cluster, namespace: string, refs: seq<BackendRef>)
    requires refs != [] && ResolveAll(c, namespace, refs).Ok?
    ensures var front, last := refs[..|refs| - 1], refs[|refs| - 1];
      && ResolveAll(c, namespace, front).Ok? && Resolve(c, namespace, last).Ok?
      && ClustersIn(ResolveAll(c, namespace, refs).value) ==
           ClustersIn(ResolveAll(c, namespace, front).value) +
           if WeightOf(last) == 0 then [] else [Resolve(c, namespace, last).value.cluster.value]
  {
    var rs := ResolveAll(c, namespace, refs).value;
    assert rs[..|rs| - 1] == ResolveAll(c, namespace, refs[..|refs| - 1]).value;
  }

  /** When a rule's references resolve, the backends returned are those of its references, one for one and in order,
      whatever their weight. */
  lemma BackendsFaithful(c: Cluster, namespace: string, refs: seq<BackendRef>)
    requires ResolveAll(c, namespace, refs).Ok?
    ensures var bs := BackendsIn(ResolveAll(c, namespace, refs).value);
      |bs| == |refs| && forall k :: 0 <= k < |refs| ==> IsFetched(c, namespace, refs[k], bs[k])
  {
    forall k | 0 <= k < |refs|
      ensures IsFetched(c, namespace, refs[k], ResolveAll(c, namespace, refs).value[k].backend)
    {
      BackendFaithful(c, namespace, refs, k);
    }
  }

  lemma {:induction false} BackendFaithful(c: Cluster, namespace: string, refs: seq<BackendRef>, k: nat)
    requires ResolveAll(c, namespace, refs).Ok? && k < |refs|
    ensures IsFetched(c, namespace, refs[k], ResolveAll(c, namespace, refs).value[k].backend)
  {
    var front, last := refs[..|refs| - 1], refs[|refs| - 1];
    if k < |front| { BackendFaithful(c, namespace, front, k); } else { ResolveFetches(c, namespace, last); }
  }

  predicate IsFetched(c: Cluster, namespace: string, ref: BackendRef, b: RouteBackend) {
    Fetched(c, namespace, ref) == Ok(b)
  }

  lemma ResolveFetches(c: Cluster, namespace: string, ref: BackendRef)
    requires Resolve(c, namespace, ref).Ok?
    ensures IsFetched(c, namespace, ref, Resolve(c, namespace, ref).value.backend)
  {
  }

  /** When a rule's references resolve, its weighted clusters are its non-zero references, one for one and in order. */
  lemma {:induction false} ClustersFaithful(c: Cluster, namespace: string, refs: seq<BackendRef>)
    requires ResolveAll(c, namespace, refs).Ok?
    ensures var cs := ClustersIn(ResolveAll(c, namespace, refs).value);
      |cs| == |NonZero(refs)| && forall k :: 0 <= k < |cs| ==> StandsFor(c, namespace, NonZero(refs)[k], cs[k])
  {
    if refs != [] {
      var last := refs[|refs| - 1];
      ResolveAllStep(c, namespace, refs);
      ClustersFaithful(c, namespace, refs[..|refs| - 1]);
      if WeightOf(last) != 0 { ContributionStandsFor(c, namespace, last); }
    }
  }

  /** For non-negative weights no weight is lost: the totals agree, and a rule that forwards at all has a positive one. */
  lemma {:induction false} WeightsFaithful(c: Cluster, namespace: string, refs: seq<BackendRef>)
    requires ResolveAll(c, namespace, refs).Ok?
    requires forall ref :: ref in refs ==> WeightOf(ref) >= 0
    ensures var cs := ClustersIn(ResolveAll(c, namespace, refs).value); TotalWeight(cs) == SumOfRefWeights(refs) >= |cs|
  {
    if refs != [] {
      var front, last := refs[..|refs| - 1], refs[|refs| - 1];
      ResolveAllStep(c, namespace, refs);
      WeightsFaithful(c, namespace, front);
      var before := ClustersIn(ResolveAll(c, namespace, front).value);
      if WeightOf(last) != 0 {
        ContributionStandsFor(c, namespace, last);
        var cw := Resolve(c, namespace, last).value.cluster.value;
        assert TotalWeight(before + [cw]) == TotalWeight(before) + cw.weight by {
          assert (before + [cw])[..|before|] == before;
        }
        assert last in refs && cw.weight == WeightOf(last);
        assert ClustersIn(ResolveAll(c, namespace, refs).value) == before + [cw];
      } else {
        assert before + [] == before;
      }
    }
  }

  /** Every cluster that a resolved rule forwards to is named after a port of one of the backends it returns. */
  lemma {:induction false} ForwardsToReturnedBackends(
    c: Cluster, namespace: string, refs: seq<BackendRef>, cw: ClusterWeight)
    requires ResolveAll(c, namespace, refs).Ok?
    requires cw in ClustersIn(ResolveAll(c, namespace, refs).value)
    ensures exists b, p :: b in BackendsIn(ResolveAll(c, namespace, refs).value) && p in b.ports &&
              cw.name == ClusterName(b.namespace, BackendClusterName(b), ToInt32(p.number))
  {
    var front, last := refs[..|refs| - 1], refs[|refs| - 1];
    var rs := ResolveAll(c, namespace, refs).value;
    assert rs[..|rs| - 1] == ResolveAll(c, namespace, front).value;
    if cw in ClustersIn(rs[..|rs| - 1]) {
      ForwardsToReturnedBackends(c, namespace, front, cw);
      var b, p :| b in BackendsIn(rs[..|rs| - 1]) && p in b.ports &&
        cw.name == ClusterName(b.namespace, BackendClusterName(b), ToInt32(p.number));
      var i :| 0 <= i < |rs| - 1 && rs[i].backend == b;
      assert BackendsIn(rs)[i] == b;
    } else {
      var b := rs[|rs| - 1].backend;
      assert BackendsIn(rs)[|rs| - 1] == b;
      var k := FirstSelectedIsFirst(b, last.port.value, 0);
      assert b.ports[k] in b.ports;
    }
  }
}
