/** Building the xDS resources of one Gateway: a listener per port, the clusters, and the endpoints. */
module XdsBuild {
  import opened Text
  import opened GatewayApi
  import opened EnvoyApi
  import opened Backends
  import opened RouteTranslation
  import opened ListenerConflicts
  import opened Clusters
  import opened VirtualHosts
  import opened RouteStatuses
  import opened PortBuild

  // ----- the whole Gateway -----

  function LinksOn(gw: Gateway, index: Index, port: int32): seq<Link> {
    var ls := OnPort(gw.listeners, port); AttachmentsUpTo(ls, index, |ls|, 0)
  }

  /** The route is indexed under an HTTP or HTTPS listener of the Gateway. */
  predicate Linked(gw: Gateway, index: Index, a: Link) {
    a.listener in gw.listeners && a.route in RoutesOn(a.listener, index)
  }

  lemma LinksOnExactly(gw: Gateway, index: Index, port: int32, a: Link)
    ensures a in LinksOn(gw, index, port) <==> Linked(gw, index, a) && a.listener.port == port
  {
    var ls := OnPort(gw.listeners, port);
    AttachmentsExactly(ls, index, |ls|, 0, a);
    assert ls[..|ls|] == ls;
    OnPortExactly(gw.listeners, port, a.listener);
  }

  lemma {:induction false} InBackendsOfLinks(c: Cluster, atts: seq<Link>, b: RouteBackend)
    ensures b in BackendsOfLinks(c, atts) <==> exists a :: a in atts && b in Expanded(c, a.route).backends
  {
    if atts != [] {
      var front, last := atts[..|atts| - 1], atts[|atts| - 1];
      InBackendsOfLinks(c, front, b);
      assert atts == front + [last];
      if b in Expanded(c, last.route).backends { assert last in atts; }
    }
  }

  datatype XdsResources = XdsResources(
    listeners: seq<EnvoyListener>, clusters: seq<EnvoyCluster>, endpoints: seq<ClusterLoadAssignment>,
    statuses: seq<ListenerStatus>)

  datatype BuildOutcome = Built(resources: XdsResources) | Failed | Panicked

  /** The backends of the ports of a list, port by port, in order and with repetitions. */
  function BackendsAlong(c: Cluster, gw: Gateway, index: Index, order: seq<int32>): seq<RouteBackend> {
    if order == [] then []
    else
      BackendsAlong(c, gw, index, order[..|order| - 1]) +
      BackendsOfLinks(c, LinksOn(gw, index, order[|order| - 1]))
  }

  lemma {:induction false} InBackendsAlong(c: Cluster, gw: Gateway, index: Index, order: seq<int32>, b: RouteBackend)
    ensures b in BackendsAlong(c, gw, index, order) <==> BackendOnSome(c, gw, index, order, b)
  {
    if order != [] {
      var front, last := order[..|order| - 1], order[|order| - 1];
      InBackendsAlong(c, gw, index, front, b);
      InBackendsOfPort(c, gw, index, last, b);
      BackendOnOneMore(c, gw, index, front, last, b);
      assert order == front + [last];
    }
  }

  predicate BackendOnSome(c: Cluster, gw: Gateway, index: Index, order: seq<int32>, b: RouteBackend) {
    exists port :: port in order && BackendOn(c, gw, index, port, b)
  }

  lemma BackendOnOneMore(c: Cluster, gw: Gateway, index: Index, order: seq<int32>, port: int32, b: RouteBackend)
    ensures BackendOnSome(c, gw, index, order + [port], b) <==>
            BackendOnSome(c, gw, index, order, b) || BackendOn(c, gw, index, port, b)
  {
    assert forall p :: p in order + [port] <==> p in order || p == port;
  }

  /** The backend is one of a route linked to a listener of the port. */
  predicate BackendOn(c: Cluster, gw: Gateway, index: Index, port: int32, b: RouteBackend) {
    exists a :: a in LinksOn(gw, index, port) && b in Expanded(c, a.route).backends
  }

  lemma InBackendsOfPort(c: Cluster, gw: Gateway, index: Index, port: int32, b: RouteBackend)
    ensures b in BackendsOfLinks(c, LinksOn(gw, index, port)) <==> BackendOn(c, gw, index, port, b)
  {
    InBackendsOfLinks(c, LinksOn(gw, index, port), b);
  }

  /** The route statuses after the ports of a list have been built, in order. */
  function MergedAlong(c: Cluster, gw: Gateway, index: Index, m: ParentStatuses, order: seq<int32>): ParentStatuses {
    if order == [] then m
    else
      MergedBy(c, MergedAlong(c, gw, index, m, order[..|order| - 1]), LinksOn(gw, index, order[|order| - 1]))
  }

  /** The ports of the Gateway, each once. */
  ghost predicate PortOrder(gw: Gateway, order: seq<int32>) {
    && (forall i, j :: 0 <= i < j < |order| ==> order[i] != order[j])
    && (forall p :: p in order <==> exists l :: l in gw.listeners && l.port == p)
  }

  /** Each Envoy listener is the build of one port of the Gateway, no two of the same port, and every port with an
      HTTP or HTTPS listener has one. */
  ghost predicate ListenersFor(c: Cluster, gw: Gateway, index: Index, els: seq<EnvoyListener>) {
    && (forall el :: el in els ==> ForPort(c, gw, index, el))
    && (forall i, j :: 0 <= i < j < |els| ==> els[i].port != els[j].port)
    && (forall l :: l in gw.listeners && Routed(l) ==> HasListener(els, l.port))
  }

  /** The Envoy listener is the build of its port. */
  ghost predicate ForPort(c: Cluster, gw: Gateway, index: Index, el: EnvoyListener) {
    -TWO_TO_THE_31 <= el.port < TWO_TO_THE_31 &&
    PortListener(c, gw, el.port, OnPort(gw.listeners, el.port), index, Some(el))
  }

  predicate HasListener(els: seq<EnvoyListener>, port: int) { exists el :: el in els && el.port == port }

  /** The list holds the clusters of the table, each once. */
  ghost predicate ListsTable(clusters: seq<EnvoyCluster>, table: map<string, EnvoyCluster>) {
    && (forall i, j :: 0 <= i < j < |clusters| ==> clusters[i].name != clusters[j].name)
    && (forall cl :: cl in clusters <==> cl.name in table && table[cl.name] == cl)
  }

  /** Everything a successful build promises about its resources; the ports were visited in the order given. */
  ghost predicate IsBuild(c: Cluster, gw: Gateway, index: Index, r: XdsResources, order: seq<int32>) {
    && PortOrder(gw, order)
    && ListenersFor(c, gw, index, r.listeners)
    && ListsTable(r.clusters, TableOf(BackendsAlong(c, gw, index, order)))
    && r.endpoints == EdsOf(c, BackendsAlong(c, gw, index, order))
    && (NamesDetermine(gw) ==> StatusesFor(c, gw.listeners, index, r.statuses))
  }

  /** Listener names are unique, as the API requires. */
  predicate NamesDetermine(gw: Gateway) {
    forall l, l' :: l in gw.listeners && l' in gw.listeners && l.name == l'.name ==> l == l'
  }

  /** A Gateway that can be built: no listener is invalid or in conflict, and all backends are buildable. */
  ghost predicate BuildableGateway(c: Cluster, gw: Gateway, index: Index) {
    ListenersValid(gw) && RoutesBuildable(c, gw, index)
  }

  ghost predicate ListenersValid(gw: Gateway) {
    forall l :: l in gw.listeners ==> KindsValid(l) && !NameInConflict(gw.listeners, l.name)
  }

  ghost predicate RoutesBuildable(c: Cluster, gw: Gateway, index: Index) {
    forall a :: Linked(gw, index, a) ==> RouteBuildable(c, a.route)
  }

  /** What stopped a build: an invalid listener, or a route with an unbuildable backend. */
  ghost predicate Excuses(c: Cluster, gw: Gateway, index: Index, outcome: BuildOutcome) {
    match outcome
    case Panicked => !ListenersValid(gw)
    case Failed => !RoutesBuildable(c, gw, index)
    case Built(_) => false
  }

  // The build visits the ports in arbitrary order; order lists those visited so far.

  datatype GatewayProgress = GatewayProgress(
    listeners: seq<EnvoyListener>, backends: seq<RouteBackend>, statuses: map<string, ListenerStatus>)

  ghost predicate ListenersDone(c: Cluster, gw: Gateway, index: Index, order: seq<int32>, els: seq<EnvoyListener>) {
    && (forall el :: el in els ==> el.port in order && ForPort(c, gw, index, el))
    && (forall i, j :: 0 <= i < j < |els| ==> els[i].port != els[j].port)
    && (forall l :: l in gw.listeners && Routed(l) && l.port in order ==> HasListener(els, l.port))
  }

  ghost predicate StatusesDone(
    c: Cluster, gw: Gateway, index: Index, order: seq<int32>, statuses: map<string, ListenerStatus>)
  {
    forall l :: l in gw.listeners && l.port in order ==>
      l.name in statuses && statuses[l.name] == ListenerStatus(l.name, TranslatedRoutes(c, RoutesOn(l, index)))
  }

  ghost predicate ValidDone(c: Cluster, gw: Gateway, index: Index, order: seq<int32>) {
    && (forall l :: l in gw.listeners && l.port in order ==> KindsValid(l) && !NameInConflict(gw.listeners, l.name))
    && (forall a :: Linked(gw, index, a) && a.listener.port in order ==> RouteBuildable(c, a.route))
  }

  lemma {:induction false} RoutedHasChain(ls: seq<Listener>, l: Listener, n: nat)
    requires n <= |ls| && l in ls[..n] && Routed(l)
    ensures ChainsBefore(ls, n) > 0
  {
    assert ls[..n] == ls[..n - 1] + [ls[n - 1]];
    if l in ls[..n - 1] { RoutedHasChain(ls, l, n - 1); }
  }

  lemma ListenersOneMore(c: Cluster, gw: Gateway, index: Index, order: seq<int32>, els: seq<EnvoyListener>,
                         port: int32, el: Option<EnvoyListener>)
    requires ListenersDone(c, gw, index, order, els) && port !in order
    requires PortListener(c, gw, port, OnPort(gw.listeners, port), index, el)
    ensures ListenersDone(c, gw, index, order + [port], if el.Some? then els + [el.value] else els)
  {
    forall l | l in gw.listeners && Routed(l) && l.port == port ensures el.Some? {
      RoutedIsBuilt(c, gw, index, port, l, el);
    }
    if el.Some? {
      ListenerAdded(c, gw, index, order, els, port, el.value);
    } else {
      NoListenerAdded(c, gw, index, order, els, port);
    }
  }

  lemma NoListenerAdded(c: Cluster, gw: Gateway, index: Index, order: seq<int32>, els: seq<EnvoyListener>, port: int32)
    requires ListenersDone(c, gw, index, order, els)
    requires forall l :: l in gw.listeners && Routed(l) ==> l.port != port
    ensures ListenersDone(c, gw, index, order + [port], els)
  {
  }

  lemma ListenerAdded(c: Cluster, gw: Gateway, index: Index, order: seq<int32>, els: seq<EnvoyListener>,
                      port: int32, el: EnvoyListener)
    requires ListenersDone(c, gw, index, order, els) && port !in order
    requires el.port == port && ForPort(c, gw, index, el)
    ensures ListenersDone(c, gw, index, order + [port], els + [el])
  {
    assert forall i :: 0 <= i < |els| ==> els[i] in els;
    forall p: int ensures HasListener(els + [el], p) <==> HasListener(els, p) || p == port {
      if x :| x in els && x.port == p { assert x in els + [el]; }
      assert el in els + [el];
    }
  }

  /** A port with a routed listener gets an Envoy listener. */
  lemma RoutedIsBuilt(c: Cluster, gw: Gateway, index: Index, port: int32, l: Listener, el: Option<EnvoyListener>)
    requires PortListener(c, gw, port, OnPort(gw.listeners, port), index, el)
    requires l in gw.listeners && Routed(l) && l.port == port
    ensures el.Some?
  {
    var ls := OnPort(gw.listeners, port);
    OnPortExactly(gw.listeners, port, l);
    assert ls[..|ls|] == ls;
    RoutedHasChain(ls, l, |ls|);
  }

  lemma BackendsGrow(c: Cluster, gw: Gateway, index: Index, order: seq<int32>, port: int32)
    ensures BackendsAlong(c, gw, index, order + [port]) ==
              BackendsAlong(c, gw, index, order) + BackendsOfLinks(c, LinksOn(gw, index, port))
  {
    var more := order + [port];
    assert more[..|more| - 1] == order && more[|more| - 1] == port;
  }

  lemma StatusesGrow(c: Cluster, gw: Gateway, index: Index, m: ParentStatuses, order: seq<int32>, port: int32)
    ensures MergedAlong(c, gw, index, m, order + [port]) ==
              MergedBy(c, MergedAlong(c, gw, index, m, order), LinksOn(gw, index, port))
  {
    var more := order + [port];
    assert more[..|more| - 1] == order && more[|more| - 1] == port;
  }

  lemma ValidOneMorePort(c: Cluster, gw: Gateway, index: Index, order: seq<int32>, port: int32, conditions: Conditions)
    requires ValidDone(c, gw, index, order)
    requires ReportsConflicts(gw.listeners, conditions)
    ensures AllValid(conditions, OnPort(gw.listeners, port)) && LinksBuildable(c, LinksOn(gw, index, port)) <==>
            ValidDone(c, gw, index, order + [port])
  {
    assert forall p :: p in order + [port] <==> p in order || p == port;
    forall l { OnPortExactly(gw.listeners, port, l); }
    forall a { LinksOnExactly(gw, index, port, a); }
  }

  lemma PortFailureIsReal(c: Cluster, gw: Gateway, index: Index, port: int32, conditions: Conditions)
    requires ReportsConflicts(gw.listeners, conditions)
    ensures ListenersValid(gw) ==> AllValid(conditions, OnPort(gw.listeners, port))
    ensures RoutesBuildable(c, gw, index) ==> LinksBuildable(c, LinksOn(gw, index, port))
  {
    forall l { OnPortExactly(gw.listeners, port, l); }
    forall a { LinksOnExactly(gw, index, port, a); }
  }

  /** Records the statuses of one port's listeners under their names. */
  method RecordStatuses(c: Cluster, gw: Gateway, index: Index, port: int32, found: seq<ListenerStatus>,
                        statuses: map<string, ListenerStatus>, ghost order: seq<int32>)
    returns (r: map<string, ListenerStatus>)
    requires NamesDetermine(gw) ==> StatusesDone(c, gw, index, order, statuses)
    requires StatusesFor(c, OnPort(gw.listeners, port), index, found)
    ensures NamesDetermine(gw) ==> StatusesDone(c, gw, index, order + [port], r)
  {
    ghost var ls := OnPort(gw.listeners, port);
    r := statuses;
    for i := 0 to |found|
      invariant NamesDetermine(gw) ==> StatusesDone(c, gw, index, order, r)
      invariant NamesDetermine(gw) ==> forall k :: 0 <= k < i ==> ls[k].name in r && r[ls[k].name] == found[k]
    {
      forall k | 0 <= k < |ls| ensures ls[k] in gw.listeners {
        OnPortExactly(gw.listeners, port, ls[k]);
      }
      r := r[found[i].name := found[i]];
    }
    forall l | NamesDetermine(gw) && l in gw.listeners && l.port == port ensures l.name in r
      && r[l.name] == ListenerStatus(l.name, TranslatedRoutes(c, RoutesOn(l, index)))
    {
      OnPortExactly(gw.listeners, port, l);
      var k :| 0 <= k < |ls| && ls[k] == l;
    }
  }

  ghost predicate GatewayBuiltUpTo(
    c: Cluster, gw: Gateway, index: Index, gathered: ParentStatuses, order: seq<int32>, p: GatewayProgress,
    clusters: map<string, EnvoyCluster>, parents: ParentStatuses)
  {
    && ListenersDone(c, gw, index, order, p.listeners)
    && p.backends == BackendsAlong(c, gw, index, order)
    && (NamesDetermine(gw) ==> StatusesDone(c, gw, index, order, p.statuses))
    && ValidDone(c, gw, index, order)
    && clusters == TableOf(p.backends)
    && parents == MergedAlong(c, gw, index, gathered, order)
  }

  lemma NothingBuilt(c: Cluster, gw: Gateway, index: Index, gathered: ParentStatuses)
    ensures GatewayBuiltUpTo(c, gw, index, gathered, [], GatewayProgress([], [], map[]), map[], gathered)
  {
  }

  /** Builds one more port. */
  method BuildPort(c: Cluster, gw: Gateway, index: Index, conditions: Conditions, port: int32, ls: seq<Listener>,
                   p: GatewayProgress, table: ClusterTable, parents: StatusTable,
                   ghost gathered: ParentStatuses, ghost order: seq<int32>)
    returns (outcome: PortOutcome, r: GatewayProgress)
    requires ls == OnPort(gw.listeners, port)
    requires ReportsConflicts(gw.listeners, conditions)
    requires GatewayBuiltUpTo(c, gw, index, gathered, order, p, table.clusters, parents.statuses) && port !in order
    modifies table, parents
    ensures outcome.PortBuilt? <==> ValidDone(c, gw, index, order + [port])
    ensures outcome.PortBuilt? ==>
              GatewayBuiltUpTo(c, gw, index, gathered, order + [port], r, table.clusters, parents.statuses)
    ensures outcome.PortPanicked? ==> !ListenersValid(gw)
    ensures outcome.PortFailed? ==> !RoutesBuildable(c, gw, index)
  {
    PortFailureIsReal(c, gw, index, port, conditions);
    ValidOneMorePort(c, gw, index, order, port, conditions);
    outcome := BuildEnvoyListenerForPort(c, gw, port, ls, index, conditions, table, parents,
                                         Leftover(p.backends, parents.statuses));
    r := p;
    if outcome.PortBuilt? {
      ListenersOneMore(c, gw, index, order, p.listeners, port, outcome.listener);
      BackendsGrow(c, gw, index, order, port);
      StatusesGrow(c, gw, index, gathered, order, port);
      var statuses := RecordStatuses(c, gw, index, port, outcome.statuses, p.statuses, order);
      r := GatewayProgress(if outcome.listener.Some? then p.listeners + [outcome.listener.value] else p.listeners,
                           p.backends + outcome.backends, statuses);
    }
  }

  /** The clusters of the table, in the arbitrary order of a map iteration. */
  method ClusterList(table: map<string, EnvoyCluster>) returns (clusters: seq<EnvoyCluster>)
    requires forall n :: n in table ==> table[n].name == n
    ensures ListsTable(clusters, table)
  {
    clusters := [];
    var rest := table.Keys;
    while rest != {}
      invariant rest <= table.Keys
      invariant forall i, j :: 0 <= i < j < |clusters| ==> clusters[i].name != clusters[j].name
      invariant forall cl :: cl in clusters <==> cl.name in table && table[cl.name] == cl && cl.name !in rest
      decreases |rest|
    {
      var n :| n in rest;
      assert forall i :: 0 <= i < |clusters| ==> clusters[i] in clusters;
      clusters := clusters + [table[n]];
      rest := rest - {n};
    }
  }

  /** Builds the ports one after the other, in the arbitrary order of a map iteration. */
  method BuildAllPorts(c: Cluster, gw: Gateway, index: Index, conditions: Conditions,
                       byPort: map<int32, seq<Listener>>, table: ClusterTable, parents: StatusTable,
                       ghost gathered: ParentStatuses)
    returns (failure: Option<BuildOutcome>, p: GatewayProgress, ghost order: seq<int32>)
    requires ReportsConflicts(gw.listeners, conditions) && Groups(gw.listeners, byPort)
    requires table.clusters == map[] && parents.statuses == gathered
    modifies table, parents
    ensures failure.Some? ==> Excuses(c, gw, index, failure.value)
    ensures failure.None? ==> Visits(byPort.Keys, {}, order)
    ensures failure.None? ==> GatewayBuiltUpTo(c, gw, index, gathered, order, p, table.clusters, parents.statuses)
  {
    p := GatewayProgress([], [], map[]);
    var rest := byPort.Keys;
    order := [];
    NothingBuilt(c, gw, index, gathered);
    while rest != {}
      invariant rest <= byPort.Keys && Visits(byPort.Keys, rest, order)
      invariant GatewayBuiltUpTo(c, gw, index, gathered, order, p, table.clusters, parents.statuses)
      decreases |rest|
    {
      var port :| port in rest;
      var outcome, next := BuildPort(c, gw, index, conditions, port, byPort[port], p, table, parents, gathered,
                                     order);
      if !outcome.PortBuilt? {
        return Some(if outcome.PortPanicked? then Panicked else Failed), p, order;
      }
      VisitsOneMore(byPort.Keys, rest, order, port);
      p, rest, order := next, rest - {port}, order + [port];
    }
    failure := None;
  }

  /** The ports visited are those no longer waiting, each visited once. */
  ghost predicate Visits(ports: set<int32>, rest: set<int32>, order: seq<int32>) {
    && (forall i, j :: 0 <= i < j < |order| ==> order[i] != order[j])
    && (forall p :: p in order <==> p in ports && p !in rest)
  }

  lemma VisitsOneMore(ports: set<int32>, rest: set<int32>, order: seq<int32>, port: int32)
    requires rest <= ports && Visits(ports, rest, order) && port in rest
    ensures Visits(ports, rest - {port}, order + [port])
  {
    assert port !in order;
  }

  /** Builds all resources of a Gateway, and completes the statuses of its routes: it succeeds exactly when the Gateway
      is buildable. */
  method BuildXDSFromGatewayAndRoutes(c: Cluster, gw: Gateway, index: Index, gathered: ParentStatuses)
    returns (r: BuildOutcome, statuses: ParentStatuses, ghost order: seq<int32>)
    ensures r.Built? <==> BuildableGateway(c, gw, index)
    ensures !r.Built? ==> Excuses(c, gw, index, r)
    ensures r.Built? ==> IsBuild(c, gw, index, r.resources, order)
    ensures r.Built? ==> statuses == MergedAlong(c, gw, index, gathered, order)
  {
    var envoyClusters := new ClusterTable();
    var parentStatuses := new StatusTable(gathered);
    var conditions := ValidateListenerConflicts(gw.listeners);
    var byPort := GroupByPort(gw.listeners);
    var failure, p, visited := BuildAllPorts(c, gw, index, conditions, byPort, envoyClusters, parentStatuses, gathered);
    statuses, order := parentStatuses.statuses, visited;
    if failure.Some? {
      return failure.value, statuses, order;
    }
    AllPortsVisited(gw, byPort, order);
    AllPortsDone(c, gw, index, order, p.listeners);
    AllBuildable(c, gw, index, order);
    TableNames(p.backends);
    var clusters := ClusterList(envoyClusters.clusters);
    var listenerStatuses := OrderedStatuses(gw, p.statuses);
    var eds := BuildEDSResources(c, p.backends);
    r := Built(XdsResources(p.listeners, clusters, eds.value, listenerStatuses));
  }

  /** The recorded statuses in listener order; a name without one yields the zero value. */
  function OrderedStatuses(gw: Gateway, statuses: map<string, ListenerStatus>): seq<ListenerStatus> {
    seq(|gw.listeners|, i requires 0 <= i < |gw.listeners| =>
      if gw.listeners[i].name in statuses then statuses[gw.listeners[i].name] else ListenerStatus("", 0))
  }

  lemma AllPortsVisited(gw: Gateway, byPort: map<int32, seq<Listener>>, order: seq<int32>)
    requires Groups(gw.listeners, byPort) && Visits(byPort.Keys, {}, order)
    ensures PortOrder(gw, order)
  {
    forall p ensures p in order <==> exists l :: l in gw.listeners && l.port == p {
      if p in order {
        var on := OnPort(gw.listeners, p);
        assert on[0] in on;
        OnPortExactly(gw.listeners, p, on[0]);
      }
      if l :| l in gw.listeners && l.port == p { OnPortExactly(gw.listeners, p, l); }
    }
  }

  /** Once all ports are done nothing is left out. */
  lemma AllPortsDone(c: Cluster, gw: Gateway, index: Index, order: seq<int32>, els: seq<EnvoyListener>)
    requires PortOrder(gw, order)
    requires ListenersDone(c, gw, index, order, els) && ValidDone(c, gw, index, order)
    ensures BuildableGateway(c, gw, index) && ListenersFor(c, gw, index, els)
  {
  }

  lemma AllBuildable(c: Cluster, gw: Gateway, index: Index, order: seq<int32>)
    requires BuildableGateway(c, gw, index)
    ensures forall b :: b in BackendsAlong(c, gw, index, order) ==> Buildable(b)
  {
    forall b | b in BackendsAlong(c, gw, index, order) ensures Buildable(b) {
      InBackendsAlong(c, gw, index, order, b);
      var port :| port in order && BackendOn(c, gw, index, port, b);
      var a :| a in LinksOn(gw, index, port) && b in Expanded(c, a.route).backends;
      LinksOnExactly(gw, index, port, a);
    }
  }

  lemma TableNames(bs: seq<RouteBackend>)
    ensures forall n :: n in TableOf(bs) ==> TableOf(bs)[n].name == n
  {
    forall n | n in TableOf(bs) ensures TableOf(bs)[n].name == n {
      var b, p := TableEntry(bs, n);
    }
  }
}
