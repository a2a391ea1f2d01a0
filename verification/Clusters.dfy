/** Envoy clusters and endpoint assignments for the backends of a Gateway. */
module Clusters {
  import opened Text
  import opened GatewayApi
  import opened EnvoyApi
  import opened Names
  import opened Backends

  /** The cluster name of one port of a backend. */
  function PortName(b: RouteBackend, p: RouteBackendPort): string {
    ClusterName(b.namespace, BackendClusterName(b), p.number)
  }

  function EnvoyClusterFor(b: RouteBackend, p: RouteBackendPort): EnvoyCluster {
    EnvoyCluster(PortName(b, p), if b.resolution == DNS then LogicalDns(b.hostname, p.number) else Eds(PortName(b, p)),
                 match p.tls { case UsableTLS(sni) => Some(if sni != "" then sni else b.hostname) case _ => None })
  }

  // ----- clusters -----

  /** A backend for which clusters can be made: it has ports, a DNS backend a hostname, and its TLS secrets are good. */
  predicate Buildable(b: RouteBackend) {
    b.ports != [] && (b.resolution == DNS ==> b.hostname != "") && forall p :: p in b.ports ==> p.tls != BrokenTLS
  }

  function ClustersOfPorts(b: RouteBackend): seq<EnvoyCluster> {
    seq(|b.ports|, k requires 0 <= k < |b.ports| => EnvoyClusterFor(b, b.ports[k]))
  }

  /** One cluster for every port of every backend, in order. */
  function ClustersOfBackends(bs: seq<RouteBackend>): seq<EnvoyCluster> {
    if bs == [] then [] else ClustersOfBackends(bs[..|bs| - 1]) + ClustersOfPorts(bs[|bs| - 1])
  }

  method BuildClustersFromBackends(bs: seq<RouteBackend>) returns (r: Result<seq<EnvoyCluster>, RouteBackend>)
    ensures r.Ok? <==> forall b :: b in bs ==> Buildable(b)
    ensures r.Ok? ==> r.value == ClustersOfBackends(bs)
    ensures r.Err? ==> r.error in bs && !Buildable(r.error)
  {
    var clusters: seq<EnvoyCluster> := [];
    for i := 0 to |bs|
      invariant forall b :: b in bs[..i] ==> Buildable(b)
      invariant clusters == ClustersOfBackends(bs[..i])
    {
      var b := bs[i];
      assert b in bs && bs[..i + 1] == bs[..i] + [b] && bs[..i + 1][..i] == bs[..i];
      if |b.ports| == 0 {
        return Err(b);
      }
      var more := BuildClustersForPorts(b);
      if more.None? {
        return Err(b);
      }
      clusters := clusters + more.value;
    }
    assert bs[..|bs|] == bs;
    r := Ok(clusters);
  }

  /** The clusters of one backend, port by port. */
  method BuildClustersForPorts(b: RouteBackend) returns (r: Option<seq<EnvoyCluster>>)
    requires b.ports != []
    ensures r.Some? <==> Buildable(b)
    ensures r.Some? ==> r.value == ClustersOfPorts(b)
  {
    var clusters: seq<EnvoyCluster> := [];
    for k := 0 to |b.ports|
      invariant forall x :: 0 <= x < k ==> b.ports[x].tls != BrokenTLS
      invariant k > 0 && b.resolution == DNS ==> b.hostname != ""
      invariant clusters == ClustersOfPorts(b)[..k]
    {
      if b.resolution == DNS && b.hostname == "" {
        return None;
      }
      if b.ports[k].tls == BrokenTLS {
        assert b.ports[k] in b.ports;
        return None;
      }
      clusters := clusters + [EnvoyClusterFor(b, b.ports[k])];
    }
    r := Some(clusters);
  }

  /** A table after the clusters were written into it in order; a later one of the same name replaces an earlier one. */
  function Written(table: map<string, EnvoyCluster>, cs: seq<EnvoyCluster>): map<string, EnvoyCluster> {
    if cs == [] then table else Written(table, cs[..|cs| - 1])[cs[|cs| - 1].name := cs[|cs| - 1]]
  }

  /** The clusters of a build, shared by all its ports. */
  class ClusterTable {
    var clusters: map<string, EnvoyCluster>

    constructor ()
      ensures clusters == map[]
    {
      clusters := map[];
    }

    method Put(cs: seq<EnvoyCluster>)
      modifies this
      ensures clusters == Written(old(clusters), cs)
    {
      for i := 0 to |cs|
        invariant clusters == Written(old(clusters), cs[..i])
      {
        assert cs[..i + 1][..i] == cs[..i];
        clusters := clusters[cs[i].name := cs[i]];
      }
      assert cs[..|cs|] == cs;
    }
  }

  // ----- what the table holds -----

  /** The table once the clusters of all backends have been written, in order. */
  function TableOf(bs: seq<RouteBackend>): map<string, EnvoyCluster> { Written(map[], ClustersOfBackends(bs)) }

  lemma {:induction false} WrittenAppends(table: map<string, EnvoyCluster>, a: seq<EnvoyCluster>, b: seq<EnvoyCluster>)
    ensures Written(table, a + b) == Written(Written(table, a), b)
  {
    if b == [] {
      assert a + b == a;
    } else {
      var s := a + b;
      assert s[..|s| - 1] == a + b[..|b| - 1];
      WrittenAppends(table, a, b[..|b| - 1]);
    }
  }

  lemma {:induction false} ClustersAppend(a: seq<RouteBackend>, b: seq<RouteBackend>)
    ensures ClustersOfBackends(a + b) == ClustersOfBackends(a) + ClustersOfBackends(b)
  {
    if b == [] {
      assert a + b == a;
    } else {
      var front, last := b[..|b| - 1], b[|b| - 1];
      assert a + b == (a + front) + [last] && b == front + [last];
      ClustersAppend(a, front);
      ClustersOneMore(a + front, last);
      ClustersOneMore(front, last);
      ConcatAssociative(ClustersOfBackends(a), ClustersOfBackends(front), ClustersOfPorts(last));
    }
  }

  lemma ClustersOneMore(bs: seq<RouteBackend>, b: RouteBackend)
    ensures ClustersOfBackends(bs + [b]) == ClustersOfBackends(bs) + ClustersOfPorts(b)
  {
    assert (bs + [b])[..|bs|] == bs;
  }

  /** Writing the clusters of more backends gives the table of all of them. */
  lemma TableGrows(bs: seq<RouteBackend>, more: seq<RouteBackend>)
    ensures Written(TableOf(bs), ClustersOfBackends(more)) == TableOf(bs + more)
  {
    ClustersAppend(bs, more);
    WrittenAppends(map[], ClustersOfBackends(bs), ClustersOfBackends(more));
  }

  /** cl is the last cluster of the list that is called n. */
  ghost predicate LastNamed(cs: seq<EnvoyCluster>, n: string, cl: EnvoyCluster) {
    exists k :: 0 <= k < |cs| && cs[k] == cl && cl.name == n && forall j :: k < j < |cs| ==> cs[j].name != n
  }

  /** The last cluster of a name is the one that stays. */
  lemma {:induction false} LastWriteWins(cs: seq<EnvoyCluster>, n: string)
    ensures n in Written(map[], cs) <==> exists cl :: cl in cs && cl.name == n
    ensures n in Written(map[], cs) ==> LastNamed(cs, n, Written(map[], cs)[n])
  {
    if cs != [] {
      var front, last := cs[..|cs| - 1], cs[|cs| - 1];
      LastWriteWins(front, n);
      assert cs == front + [last];
      if last.name == n {
        assert last in cs && cs[|cs| - 1] == last;
      } else if n in Written(map[], cs) {
        var k :| 0 <= k < |front| && front[k] == Written(map[], front)[n]
          && forall j :: k < j < |front| ==> front[j].name != n;
        assert cs[k] == front[k] && forall j :: k < j < |cs| ==> cs[j].name != n;
      }
    }
  }

  lemma {:induction false} InClustersOf(bs: seq<RouteBackend>, cl: EnvoyCluster)
    ensures cl in ClustersOfBackends(bs) <==> SomePortCluster(bs, cl)
  {
    if bs != [] {
      var front, last := bs[..|bs| - 1], bs[|bs| - 1];
      InClustersOf(front, cl);
      InClustersOfPorts(last, cl);
      SomePortSplit(front, last, cl);
      assert bs == front + [last];
    }
  }

  predicate SomePortCluster(bs: seq<RouteBackend>, cl: EnvoyCluster) { exists b :: b in bs && IsPortCluster(b, cl) }

  lemma SomePortSplit(bs: seq<RouteBackend>, b: RouteBackend, cl: EnvoyCluster)
    ensures SomePortCluster(bs + [b], cl) <==> SomePortCluster(bs, cl) || IsPortCluster(b, cl)
  {
    if x :| x in bs && IsPortCluster(x, cl) { assert x in bs + [b]; }
    assert b in bs + [b];
  }

  /** cl is the cluster of some port of the backend. */
  predicate IsPortCluster(b: RouteBackend, cl: EnvoyCluster) {
    exists p :: p in b.ports && cl == EnvoyClusterFor(b, p)
  }

  lemma InClustersOfPorts(b: RouteBackend, cl: EnvoyCluster)
    ensures cl in ClustersOfPorts(b) <==> IsPortCluster(b, cl)
  {
    if p :| p in b.ports && cl == EnvoyClusterFor(b, p) {
      var k :| 0 <= k < |b.ports| && b.ports[k] == p;
      assert ClustersOfPorts(b)[k] == cl;
    }
  }

  /** The table has a cluster for every port of every backend. */
  lemma TableHasPort(bs: seq<RouteBackend>, b: RouteBackend, p: RouteBackendPort)
    requires b in bs && p in b.ports
    ensures PortName(b, p) in TableOf(bs)
  {
    assert IsPortCluster(b, EnvoyClusterFor(b, p));
    InClustersOf(bs, EnvoyClusterFor(b, p));
    LastWriteWins(ClustersOfBackends(bs), PortName(b, p));
  }

  /** Every cluster in the table is that of a port of a backend, and is stored under its name. */
  lemma TableEntry(bs: seq<RouteBackend>, n: string) returns (b: RouteBackend, p: RouteBackendPort)
    requires n in TableOf(bs)
    ensures b in bs && p in b.ports && n == PortName(b, p) && TableOf(bs)[n] == EnvoyClusterFor(b, p)
  {
    LastWriteWins(ClustersOfBackends(bs), n);
    var cl := TableOf(bs)[n];
    InClustersOf(bs, cl);
    b :| b in bs && IsPortCluster(b, cl);
    p :| p in b.ports && cl == EnvoyClusterFor(b, p);
  }

  // ----- endpoints -----

  /** Endpoints that say they are not ready are skipped. */
  function EndpointsFor(e: Endpoint, port: int): seq<LbEndpoint> {
    if e.ready == Some(false) then []
    else seq(|e.addresses|, i requires 0 <= i < |e.addresses| => LbEndpoint(e.addresses[i], port, e.ready.Some?))
  }

  function EndpointsOfSlice(es: seq<Endpoint>, port: int): seq<LbEndpoint> {
    if es == [] then [] else EndpointsOfSlice(es[..|es| - 1], port) + EndpointsFor(es[|es| - 1], port)
  }

  function EndpointsOf(slices: seq<EndpointSlice>, port: int): seq<LbEndpoint> {
    if slices == [] then []
    else EndpointsOf(slices[..|slices| - 1], port) + EndpointsOfSlice(slices[|slices| - 1].endpoints, port)
  }

  function SlicesOf(c: Cluster, namespace: string, service: string): seq<EndpointSlice> {
    var key := NamespacedName(namespace, service);
    if key in c.endpointSlices then c.endpointSlices[key] else []
  }

  /** The endpoints of one slice; those that say they are not ready are skipped. */
  method FlattenSlice(es: seq<Endpoint>, port: uint32) returns (lbEndpoints: seq<LbEndpoint>)
    ensures lbEndpoints == EndpointsOfSlice(es, port)
  {
    lbEndpoints := [];
    for k := 0 to |es|
      invariant lbEndpoints == EndpointsOfSlice(es[..k], port)
    {
      assert es[..k + 1][..k] == es[..k];
      if es[k].ready == Some(false) {
        continue;
      }
      ghost var before := lbEndpoints;
      for a := 0 to |es[k].addresses|
        invariant lbEndpoints == before + EndpointsFor(es[k], port)[..a]
      {
        lbEndpoints := lbEndpoints + [LbEndpoint(es[k].addresses[a], port, es[k].ready.Some?)];
      }
    }
    assert es[..|es|] == es;
  }

  method GenerateEDSFromService(c: Cluster, service: string, namespace: string, port: uint32)
    returns (r: ClusterLoadAssignment)
    ensures r.clusterName == ClusterName(namespace, service, port)
    ensures r.endpoints == EndpointsOf(SlicesOf(c, namespace, service), port)
  {
    var slices := SlicesOf(c, namespace, service);
    var lbEndpoints: seq<LbEndpoint> := [];
    for i := 0 to |slices|
      invariant lbEndpoints == EndpointsOf(slices[..i], port)
    {
      assert slices[..i + 1][..i] == slices[..i];
      var more := FlattenSlice(slices[i].endpoints, port);
      lbEndpoints := lbEndpoints + more;
    }
    assert slices[..|slices|] == slices;
    r := ClusterLoadAssignment(ClusterName(namespace, service, port), lbEndpoints);
  }

  /** x is an address of the endpoint at the port, marked healthy when the endpoint says it is ready; an endpoint that says
      it is not ready has none. */
  predicate AddressOf(x: LbEndpoint, e: Endpoint, port: int) {
    e.ready != Some(false) && x.address in e.addresses && x.port == port && (x.healthy <==> e.ready == Some(true))
  }

  predicate Offers(es: seq<Endpoint>, port: int, x: LbEndpoint) { exists e :: e in es && AddressOf(x, e, port) }

  /** An endpoint is offered exactly when it is an address of a usable endpoint of some slice. */
  lemma {:induction false} OfferedExactly(slices: seq<EndpointSlice>, port: int, x: LbEndpoint)
    ensures x in EndpointsOf(slices, port) <==> exists s :: s in slices && Offers(s.endpoints, port, x)
  {
    if slices != [] {
      var front, last := slices[..|slices| - 1], slices[|slices| - 1];
      OfferedExactly(front, port, x);
      OfferedBySlice(last.endpoints, port, x);
      assert slices == front + [last];
      if Offers(last.endpoints, port, x) { assert last in slices; }
    }
  }

  lemma {:induction false} OfferedBySlice(es: seq<Endpoint>, port: int, x: LbEndpoint)
    ensures x in EndpointsOfSlice(es, port) <==> Offers(es, port, x)
  {
    if es != [] {
      var front, last := es[..|es| - 1], es[|es| - 1];
      OfferedBySlice(front, port, x);
      assert es == front + [last];
      OfferedByEndpoint(last, port, x);
      if AddressOf(x, last, port) { assert last in es; }
    }
  }

  lemma OfferedByEndpoint(e: Endpoint, port: int, x: LbEndpoint)
    ensures x in EndpointsFor(e, port) <==> AddressOf(x, e, port)
  {
    assert e.ready != Some(false) && e.ready.Some? ==> e.ready.value;
    if AddressOf(x, e, port) {
      var i :| 0 <= i < |e.addresses| && e.addresses[i] == x.address;
      assert x == LbEndpoint(e.addresses[i], port, e.ready.Some?);
      assert EndpointsFor(e, port)[i] == x;
    }
  }

  /** The assignment for one port of a backend: the endpoints found under the backend's cluster name. */
  function AssignmentOf(c: Cluster, b: RouteBackend, p: RouteBackendPort): ClusterLoadAssignment {
    ClusterLoadAssignment(PortName(b, p), EndpointsOf(SlicesOf(c, b.namespace, BackendClusterName(b)), p.number))
  }

  function AssignmentsOfPorts(c: Cluster, b: RouteBackend): seq<ClusterLoadAssignment> {
    seq(|b.ports|, k requires 0 <= k < |b.ports| => AssignmentOf(c, b, b.ports[k]))
  }

  /** An assignment for every port of every EDS backend, in order. */
  function EdsOf(c: Cluster, bs: seq<RouteBackend>): seq<ClusterLoadAssignment> {
    if bs == [] then []
    else
      var b := bs[|bs| - 1];
      EdsOf(c, bs[..|bs| - 1]) + if b.resolution == EDS then AssignmentsOfPorts(c, b) else []
  }

  method BuildEDSResources(c: Cluster, bs: seq<RouteBackend>) returns (r: Result<seq<ClusterLoadAssignment>, RouteBackend>)
    ensures r.Ok? <==> forall b :: b in bs && b.resolution == EDS ==> b.ports != []
    ensures r.Ok? ==> r.value == EdsOf(c, bs)
  {
    var eds: seq<ClusterLoadAssignment> := [];
    for i := 0 to |bs|
      invariant forall b :: b in bs[..i] && b.resolution == EDS ==> b.ports != []
      invariant eds == EdsOf(c, bs[..i])
    {
      var b := bs[i];
      assert b in bs && bs[..i + 1] == bs[..i] + [b] && bs[..i + 1][..i] == bs[..i];
      if b.resolution != EDS {
        continue;
      }
      if |b.ports| == 0 {
        return Err(b);
      }
      var more := BuildEDSForPorts(c, b);
      eds := eds + more;
    }
    assert bs[..|bs|] == bs;
    r := Ok(eds);
  }

  /** The assignments of one backend, port by port. */
  method BuildEDSForPorts(c: Cluster, b: RouteBackend) returns (eds: seq<ClusterLoadAssignment>)
    ensures eds == AssignmentsOfPorts(c, b)
  {
    eds := [];
    for k := 0 to |b.ports|
      invariant |eds| == k && forall x :: 0 <= x < k ==> eds[x] == AssignmentOf(c, b, b.ports[x])
    {
      var a := GenerateEDSFromService(c, BackendClusterName(b), b.namespace, b.ports[k].number);
      assert a == AssignmentOf(c, b, b.ports[k]);
      eds := eds + [a];
    }
  }

  /** Some port of an EDS backend has this cluster name. */
  ghost predicate NeedsEndpoints(bs: seq<RouteBackend>, n: string) {
    exists b, p :: b in bs && b.resolution == EDS && p in b.ports && n == PortName(b, p)
  }

  function AssignmentNames(eds: seq<ClusterLoadAssignment>): set<string> { set a | a in eds :: a.clusterName }

  /** Endpoints are assigned to exactly the names of the ports of the EDS backends. */
  lemma {:induction false} AssignmentsExactly(c: Cluster, bs: seq<RouteBackend>, n: string)
    ensures n in AssignmentNames(EdsOf(c, bs)) <==> NeedsEndpoints(bs, n)
  {
    if bs != [] {
      var front, last := bs[..|bs| - 1], bs[|bs| - 1];
      AssignmentsExactly(c, front, n);
      assert bs == front + [last];
      NamesOfBackend(c, last, n);
      var more := if last.resolution == EDS then AssignmentsOfPorts(c, last) else [];
      assert EdsOf(c, bs) == EdsOf(c, front) + more;
      assert n in AssignmentNames(EdsOf(c, bs)) <==> n in AssignmentNames(EdsOf(c, front)) || n in AssignmentNames(more);
      NeedsSplit(front, last, n);
    }
  }

  lemma NeedsSplit(bs: seq<RouteBackend>, b: RouteBackend, n: string)
    ensures NeedsEndpoints(bs + [b], n) <==>
            NeedsEndpoints(bs, n) || (b.resolution == EDS && exists p :: p in b.ports && n == PortName(b, p))
  {
    if b', p :| b' in bs && b'.resolution == EDS && p in b'.ports && n == PortName(b', p) { assert b' in bs + [b]; }
    assert b in bs + [b];
  }

  lemma NamesOfBackend(c: Cluster, b: RouteBackend, n: string)
    ensures n in AssignmentNames(AssignmentsOfPorts(c, b)) <==> exists p :: p in b.ports && n == PortName(b, p)
  {
    var more := AssignmentsOfPorts(c, b);
    if n in AssignmentNames(more) {
      var k :| 0 <= k < |more| && more[k].clusterName == n;
      assert b.ports[k] in b.ports;
    }
    if p :| p in b.ports && n == PortName(b, p) {
      var k :| 0 <= k < |b.ports| && b.ports[k] == p;
      assert more[k] in more;
    }
  }

  // ----- whose endpoints are found -----

  /** The Service that a reference with endpoint discovery forwards to. */
  function ServiceBehind(c: Cluster, namespace: string, ref: BackendRef): Option<string> {
    var key := NamespacedName(NamespaceOf(namespace, ref), ref.name);
    if ref.kind == "Service" then Some(ref.name)
    else if ref.kind == "Backend" && key in c.backends && c.backends[key].destination.ServiceDestination?
    then Some(c.backends[key].destination.name)
    else None
  }

  /** The slices that are consulted for the backend, whatever the cluster has. */
  function Consulted(b: RouteBackend, slices: map<NamespacedName, seq<EndpointSlice>>): seq<EndpointSlice> {
    SlicesOf(Cluster(map[], map[], map[], slices), b.namespace, BackendClusterName(b))
  }

  function SlicesOfService(
    namespace: string, service: string, slices: map<NamespacedName, seq<EndpointSlice>>): seq<EndpointSlice>
  {
    SlicesOf(Cluster(map[], map[], map[], slices), namespace, service)
  }

  /** Endpoints are looked up under the backend's cluster name. These are the endpoints of the Service that the reference
      forwards to, whatever the cluster has, exactly for a Backend that is called like its Service. */
  lemma ServiceEndpointsExactly(c: Cluster, namespace: string, ref: BackendRef, b: RouteBackend)
    requires Fetched(c, namespace, ref) == Ok(b) && b.resolution == EDS
    ensures ServiceBehind(c, namespace, ref).Some?
    ensures (forall slices :: Consulted(b, slices) ==
                              SlicesOfService(b.namespace, ServiceBehind(c, namespace, ref).value, slices))
            <==> ref.kind == "Backend" && ServiceBehind(c, namespace, ref) == Some(ref.name)
  {
    var service := ServiceBehind(c, namespace, ref).value;
    if BackendClusterName(b) != service {
      var slices := map[NamespacedName(b.namespace, service) := [EndpointSlice([])]];
      assert Consulted(b, slices) == [] != SlicesOfService(b.namespace, service, slices);
    }
  }

  /** For every other reference the endpoints of its Service are missed: slices that only the Service's name labels are
      not offered, however many usable endpoints they have. */
  lemma ServiceEndpointsMissed(c: Cluster, namespace: string, ref: BackendRef, b: RouteBackend, p: RouteBackendPort,
                               e: Endpoint, address: string)
    requires Fetched(c, namespace, ref) == Ok(b) && b.resolution == EDS
    requires !(ref.kind == "Backend" && ServiceBehind(c, namespace, ref) == Some(ref.name))
    requires e.ready != Some(false) && address in e.addresses
    ensures ServiceBehind(c, namespace, ref).Some?
    ensures var key := NamespacedName(b.namespace, ServiceBehind(c, namespace, ref).value);
      var c' := c.(endpointSlices := map[key := [EndpointSlice([e])]]);
      && EndpointsOf(SlicesOf(c', key.namespace, key.name), p.number) != []
      && AssignmentOf(c', b, p).endpoints == []
  {
    var x, slices := LbEndpoint(address, p.number, e.ready == Some(true)), [EndpointSlice([e])];
    assert AddressOf(x, e, p.number) && e in slices[0].endpoints && slices[0] in slices;
    OfferedExactly(slices, p.number, x);
  }

  // ----- clusters and endpoints agree -----

  /** The service names that the EDS clusters of a table ask endpoints for. */
  function ServiceNames(table: map<string, EnvoyCluster>): set<string> {
    set n | n in table && table[n].discovery.Eds? :: table[n].discovery.serviceName
  }

  /** No DNS backend and EDS backend share a cluster name. */
  ghost predicate NoSharedNames(bs: seq<RouteBackend>) {
    forall b, p, b', p' ::
      b in bs && p in b.ports && b.resolution == DNS && b' in bs && p' in b'.ports && b'.resolution == EDS ==>
        PortName(b, p) != PortName(b', p')
  }

  /** The last port that is called n belongs to an EDS backend. */
  ghost predicate LastIsEds(bs: seq<RouteBackend>, n: string) {
    exists cl :: LastNamed(ClustersOfBackends(bs), n, cl) && cl.discovery.Eds?
  }

  /** The endpoint assignments are exactly those that the clusters ask for, exactly when the last port of every name
      that an EDS backend needs belongs to an EDS backend. */
  lemma EdsClosureExactly(c: Cluster, bs: seq<RouteBackend>)
    ensures ServiceNames(TableOf(bs)) <= AssignmentNames(EdsOf(c, bs))
    ensures ServiceNames(TableOf(bs)) == AssignmentNames(EdsOf(c, bs)) <==>
            forall b, p :: b in bs && b.resolution == EDS && p in b.ports ==> LastIsEds(bs, PortName(b, p))
  {
    var asked, given := ServiceNames(TableOf(bs)), AssignmentNames(EdsOf(c, bs));
    forall n
      ensures n in asked <==> LastIsEds(bs, n)
      ensures n in asked ==> n in given
      ensures n in given <==> NeedsEndpoints(bs, n)
    {
      AskedExactly(bs, n);
      AssignmentsExactly(c, bs, n);
    }
  }

  /** Clusters ask for endpoints under their own names, and do so exactly when the last port of the name is EDS. */
  lemma AskedExactly(bs: seq<RouteBackend>, n: string)
    ensures n in ServiceNames(TableOf(bs)) <==> LastIsEds(bs, n)
    ensures n in ServiceNames(TableOf(bs)) ==> NeedsEndpoints(bs, n)
  {
    var table := TableOf(bs);
    if n in ServiceNames(table) {
      var m :| m in table && table[m].discovery.Eds? && table[m].discovery.serviceName == n;
      var b, p := TableEntry(bs, m);
      LastWriteWins(ClustersOfBackends(bs), n);
    }
    if LastIsEds(bs, n) {
      var cl :| LastNamed(ClustersOfBackends(bs), n, cl) && cl.discovery.Eds?;
      LastWriteWins(ClustersOfBackends(bs), n);
      LastNamedUnique(ClustersOfBackends(bs), n, cl, table[n]);
      var b, p := TableEntry(bs, n);
    }
  }

  lemma LastNamedUnique(cs: seq<EnvoyCluster>, n: string, a: EnvoyCluster, b: EnvoyCluster)
    requires LastNamed(cs, n, a) && LastNamed(cs, n, b)
    ensures a == b
  {
  }

  /** In particular they agree when no DNS backend and EDS backend share a cluster name. */
  lemma EdsClosed(c: Cluster, bs: seq<RouteBackend>)
    requires NoSharedNames(bs)
    ensures ServiceNames(TableOf(bs)) == AssignmentNames(EdsOf(c, bs))
  {
    EdsClosureExactly(c, bs);
    forall b, p | b in bs && b.resolution == EDS && p in b.ports ensures LastIsEds(bs, PortName(b, p)) {
      var n := PortName(b, p);
      TableHasPort(bs, b, p);
      var b', p' := TableEntry(bs, n);
      LastWriteWins(ClustersOfBackends(bs), n);
    }
  }

  /** Such a clash can happen: an FQDN backend called "synsvc-x" takes the cluster name of Service "x". */
  lemma NamesCanBeShared(ns: string, x: string, host: string, p: RouteBackendPort)
    ensures var dns := RouteBackend(BackendSource, "synsvc-" + x, ns, host, [p], DNS);
            var eds := RouteBackend(ServiceSource, x, ns, ServiceHostname(x, ns), [p], EDS);
            PortName(dns, p) == PortName(eds, p) && !NoSharedNames([dns, eds])
  {
    var dns := RouteBackend(BackendSource, "synsvc-" + x, ns, host, [p], DNS);
    var eds := RouteBackend(ServiceSource, x, ns, ServiceHostname(x, ns), [p], EDS);
    assert dns in [dns, eds] && eds in [dns, eds] && p in dns.ports && p in eds.ports;
  }
}
