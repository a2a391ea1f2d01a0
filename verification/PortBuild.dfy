/** Building the Envoy listener of one port of a Gateway. */
module PortBuild {
  import opened Text
  import opened GatewayApi
  import opened EnvoyApi
  import opened Backends
  import opened RouteTranslation
  import opened Attachment
  import opened ListenerConflicts
  import opened Clusters
  import opened VirtualHosts
  import opened RouteStatuses

  // ----- valid listeners -----

  /** Only the HTTPRoute kind is supported, of the Gateway API group or of no stated group. */
  predicate KindsValid(l: Listener) {
    l.allowedRoutes.Some? ==>
      forall k :: k in l.allowedRoutes.value.kinds ==>
        (k.group.None? || k.group.value == GATEWAY_GROUP) && k.kind == HTTPROUTE_KIND
  }

  predicate ValidListener(conditions: Conditions, l: Listener) {
    KindsValid(l) && !IsStatusConditionTrue(ConditionsOf(conditions, l.name), Conflicted)
  }

  ghost predicate AllValid(conditions: Conditions, ls: seq<Listener>) {
    forall l :: l in ls ==> ValidListener(conditions, l)
  }

  lemma ValidOneMore(conditions: Conditions, ls: seq<Listener>, i: nat)
    requires i < |ls|
    ensures AllValid(conditions, ls[..i + 1]) <==> AllValid(conditions, ls[..i]) && ValidListener(conditions, ls[i])
    ensures AllValid(conditions, ls) ==> ValidListener(conditions, ls[i])
  {
    assert ls[..i + 1] == ls[..i] + [ls[i]];
  }

  // ----- one port -----

  datatype ListenerStatus = ListenerStatus(name: string, attachedRoutes: nat)

  /** The backends of the attachments, in order and with repetitions. */
  function BackendsOfLinks(c: Cluster, atts: seq<Link>): seq<RouteBackend> {
    if atts == [] then []
    else BackendsOfLinks(c, atts[..|atts| - 1]) + Expanded(c, atts[|atts| - 1].route).backends
  }

  predicate RouteBuildable(c: Cluster, hr: HTTPRoute) {
    forall b :: b in Expanded(c, hr).backends ==> Buildable(b)
  }

  ghost predicate LinksBuildable(c: Cluster, atts: seq<Link>) { forall a :: a in atts ==> RouteBuildable(c, a.route) }

  /** How many listeners before i get a filter chain. */
  function ChainsBefore(ls: seq<Listener>, i: nat): nat
    requires i <= |ls|
  {
    if i == 0 then 0 else ChainsBefore(ls, i - 1) + if Routed(ls[i - 1]) then 1 else 0
  }

  /** How many of the routes compile to anything. */
  function TranslatedRoutes(c: Cluster, rs: seq<HTTPRoute>): nat {
    if rs == [] then 0
    else TranslatedRoutes(c, rs[..|rs| - 1]) + if Expanded(c, rs[|rs| - 1]).routes != [] then 1 else 0
  }

  ghost predicate StatusesFor(c: Cluster, ls: seq<Listener>, index: Index, statuses: seq<ListenerStatus>) {
    |statuses| == |ls| &&
    forall i :: 0 <= i < |ls| ==>
      statuses[i] == ListenerStatus(ls[i].name, TranslatedRoutes(c, RoutesOn(ls[i], index)))
  }

  /** What the builder returns for a port. Panicked: the status of an invalid listener is nil and is dereferenced. */
  datatype PortOutcome =
    | PortBuilt(listener: Option<EnvoyListener>, statuses: seq<ListenerStatus>, backends: seq<RouteBackend>)
    | PortFailed(backend: RouteBackend)
    | PortPanicked

  /** Every HTTP or HTTPS listener has a chain, and the chain of listener i serves exactly the attachments to the
      listeners up to i: the virtual hosts of a port are shared and grow from listener to listener. */
  ghost predicate ChainsFor(
    c: Cluster, gw: Gateway, port: int, ls: seq<Listener>, index: Index, n: nat, chains: seq<FilterChain>)
    requires n <= |ls|
  {
    && |chains| == ChainsBefore(ls, n)
    && forall i {:trigger HasChain(c, gw, port, ls, index, i, chains)} ::
         0 <= i < n && Routed(ls[i]) ==> HasChain(c, gw, port, ls, index, i, chains)
  }

  ghost predicate HasChain(
    c: Cluster, gw: Gateway, port: int, ls: seq<Listener>, index: Index, i: nat, chains: seq<FilterChain>)
    requires i < |ls|
  {
    && ChainsBefore(ls, i) < |chains|
    && ChainFor(c, gw, port, ls[i], AttachmentsUpTo(ls, index, i + 1, 0), chains[ChainsBefore(ls, i)])
  }

  /** Only the chain of an HTTPS listener asks for a server name, if the listener has a hostname. */
  function ServerNamesOf(l: Listener): Option<string> { if l.protocol == HTTPS then l.hostname else None }

  ghost predicate ChainFor(c: Cluster, gw: Gateway, port: int, l: Listener, atts: seq<Link>, chain: FilterChain) {
    && chain.routeConfigName == "listener_" + l.name + "_routes"
    && chain.serverNames == ServerNamesOf(l)
    && ServesExactly(c, gw.name, port, atts, chain.virtualHosts)
  }

  ghost predicate PortListener(
    c: Cluster, gw: Gateway, port: int, ls: seq<Listener>, index: Index, listener: Option<EnvoyListener>)
  {
    if listener.None? then ChainsBefore(ls, |ls|) == 0
    else
      && listener.value.name == "listener-" + Signed(port) && listener.value.port == port
      && listener.value.filterChains != []
      && ChainsFor(c, gw, port, ls, index, |ls|, listener.value.filterChains)
  }

  lemma {:induction false} ChainsBeforeMonotone(ls: seq<Listener>, i: nat, n: nat)
    requires i < n <= |ls| && Routed(ls[i])
    ensures ChainsBefore(ls, i) < ChainsBefore(ls, n)
  {
    if i < n - 1 { ChainsBeforeMonotone(ls, i, n - 1); }
  }

  /** What the ports built before have left behind. */
  datatype Leftover = Leftover(backends: seq<RouteBackend>, parents: ParentStatuses)

  /** The state of a port build after some attachments: their backends are all buildable, and virtual hosts, backends
      and the shared tables of clusters and route statuses hold exactly what the attachments call for. */
  ghost predicate PortState(c: Cluster, gw: Gateway, port: int, atts: seq<Link>, before: Leftover,
                            hosts: map<string, VirtualHost>, backends: seq<RouteBackend>,
                            clusters: map<string, EnvoyCluster>, parents: ParentStatuses)
  {
    && LinksBuildable(c, atts)
    && HostsFor(c, gw.name, port, atts, hosts)
    && backends == BackendsOfLinks(c, atts)
    && clusters == TableOf(before.backends + backends)
    && parents == MergedBy(c, before.parents, atts)
  }

  lemma BackendsOneMore(c: Cluster, atts: seq<Link>, a: Link)
    ensures BackendsOfLinks(c, atts + [a]) == BackendsOfLinks(c, atts) + Expanded(c, a.route).backends
  {
    assert (atts + [a])[..|atts|] == atts;
  }

  /** Builds the clusters of more backends and stores them in the shared table, or names a backend that has none. */
  method StoreClusters(bs: seq<RouteBackend>, table: ClusterTable, ghost earlier: seq<RouteBackend>)
    returns (failure: Option<RouteBackend>)
    requires table.clusters == TableOf(earlier)
    modifies table
    ensures failure.None? <==> forall b :: b in bs ==> Buildable(b)
    ensures failure.None? ==> table.clusters == TableOf(earlier + bs)
  {
    var clusters := BuildClustersFromBackends(bs);
    if clusters.Err? {
      return Some(clusters.error);
    }
    table.Put(clusters.value);
    TableGrows(earlier, bs);
    failure := None;
  }

  /** The effect of one attachment on the state of a port build. */
  method AddAttachment(c: Cluster, gw: Gateway, port: int, l: Listener, hr: HTTPRoute,
                       hosts: map<string, VirtualHost>, backends: seq<RouteBackend>, table: ClusterTable,
                       parents: StatusTable, ghost atts: seq<Link>, ghost before: Leftover)
    returns (r: Result<map<string, VirtualHost>, RouteBackend>, backends': seq<RouteBackend>, attached: bool)
    requires PortState(c, gw, port, atts, before, hosts, backends, table.clusters, parents.statuses)
    modifies table, parents
    ensures r.Ok? <==> RouteBuildable(c, hr)
    ensures r.Ok? ==> PortState(c, gw, port, atts + [Link(l, hr)], before, r.value, backends', table.clusters,
                                parents.statuses)
    ensures r.Ok? ==> (attached <==> Expanded(c, hr).routes != [])
  {
    var routes, bs, condition := TranslateHTTPRouteToEnvoyRoutes(c, hr);
    backends' := backends + bs;
    ConcatAssociative(before.backends, backends, bs);
    parents.Merge(KeyOf(hr), condition);
    MergedOneMore(c, before.parents, atts, Link(l, hr));
    attached := |routes| > 0;
    assert |multiset(routes)| == |routes| && |multiset(Expanded(c, hr).routes)| == |Expanded(c, hr).routes|;
    var failure := StoreClusters(bs, table, before.backends + backends);
    if failure.Some? {
      return Err(failure.value), backends', attached;
    }
    BackendsOneMore(c, atts, Link(l, hr));
    var hosts' := VirtualHosts.Attach(c, gw.name, port, hosts, l, hr, routes, atts);
    r := Ok(hosts');
  }

  lemma TranslatedOneMore(c: Cluster, rs: seq<HTTPRoute>, j: nat)
    requires j < |rs|
    ensures TranslatedRoutes(c, rs[..j + 1]) ==
              TranslatedRoutes(c, rs[..j]) + if Expanded(c, rs[j]).routes != [] then 1 else 0
  {
    var more := rs[..j + 1];
    assert more[..|more| - 1] == rs[..j] && more[|more| - 1] == rs[j];
  }

  lemma UnbuildableLink(c: Cluster, ls: seq<Listener>, index: Index, i: nat, j: nat)
    requires i < |ls| && j < |RoutesOn(ls[i], index)| && !RouteBuildable(c, RoutesOn(ls[i], index)[j])
    ensures !LinksBuildable(c, AttachmentsUpTo(ls, index, |ls|, 0))
  {
    AttachmentsExactly(ls, index, |ls|, 0, Link(ls[i], RoutesOn(ls[i], index)[j]));
  }

  /** All routes of one listener. */
  method AddListenerRoutes(c: Cluster, gw: Gateway, port: int, ls: seq<Listener>, index: Index, i: nat,
                           hosts: map<string, VirtualHost>, backends: seq<RouteBackend>, table: ClusterTable,
                           parents: StatusTable, ghost before: Leftover)
    returns (r: Result<map<string, VirtualHost>, RouteBackend>, backends': seq<RouteBackend>, attachedRoutes: nat)
    requires i < |ls|
    requires PortState(c, gw, port, AttachmentsUpTo(ls, index, i, 0), before, hosts, backends, table.clusters,
                       parents.statuses)
    modifies table, parents
    ensures r.Err? ==> !LinksBuildable(c, AttachmentsUpTo(ls, index, |ls|, 0))
    ensures r.Ok? ==>
              PortState(c, gw, port, AttachmentsUpTo(ls, index, i + 1, 0), before, r.value, backends', table.clusters,
                        parents.statuses)
    ensures r.Ok? ==> attachedRoutes == TranslatedRoutes(c, RoutesOn(ls[i], index))
  {
    var rs := RoutesOn(ls[i], index);
    assert rs[..|rs|] == rs;
    var hosts' := hosts;
    backends', attachedRoutes := backends, 0;
    for j := 0 to |rs|
      invariant PortState(c, gw, port, AttachmentsUpTo(ls, index, i, j), before, hosts', backends', table.clusters,
                          parents.statuses)
      invariant attachedRoutes == TranslatedRoutes(c, rs[..j])
    {
      var next, bs, attached := AddAttachment(c, gw, port, ls[i], rs[j], hosts', backends', table, parents,
                                              AttachmentsUpTo(ls, index, i, j), before);
      backends' := bs;
      if next.Err? {
        UnbuildableLink(c, ls, index, i, j);
        return Err(next.error), backends', attachedRoutes;
      }
      hosts' := next.value;
      TranslatedOneMore(c, rs, j);
      if attached { attachedRoutes := attachedRoutes + 1; }
    }
    r := Ok(hosts');
  }

  /** The filter chain of one listener, serialised with the virtual hosts as they are now. */
  method BuildFilterChain(c: Cluster, gw: Gateway, port: int, l: Listener, hosts: map<string, VirtualHost>,
                          ghost atts: seq<Link>)
    returns (sorted: map<string, VirtualHost>, chain: FilterChain)
    requires HostsFor(c, gw.name, port, atts, hosts)
    ensures HostsFor(c, gw.name, port, atts, sorted)
    ensures ChainFor(c, gw, port, l, atts, chain)
  {
    var vhs;
    sorted, vhs := SerialiseHosts(hosts);
    SameHostsMeansHostsFor(c, gw.name, port, atts, hosts, sorted);
    ListedServesExactly(c, gw.name, port, atts, sorted, vhs);
    chain := FilterChain("listener_" + l.name + "_routes", ServerNamesOf(l), vhs);
  }

  /** What the builder of a port has accumulated. */
  datatype Progress = Progress(
    hosts: map<string, VirtualHost>, backends: seq<RouteBackend>, chains: seq<FilterChain>, statuses: seq<ListenerStatus>)

  /** The progress after the first i listeners. */
  ghost predicate BuiltUpTo(c: Cluster, gw: Gateway, port: int, ls: seq<Listener>, index: Index, i: nat,
                            before: Leftover, p: Progress, clusters: map<string, EnvoyCluster>,
                            parents: ParentStatuses)
    requires i <= |ls|
  {
    && PortState(c, gw, port, AttachmentsUpTo(ls, index, i, 0), before, p.hosts, p.backends, clusters, parents)
    && ChainsFor(c, gw, port, ls, index, i, p.chains)
    && StatusesFor(c, ls[..i], index, p.statuses)
  }

  /** Adds a valid listener: its routes, its filter chain if it is routed, and its status. */
  method AddListener(c: Cluster, gw: Gateway, port: int, ls: seq<Listener>, index: Index, i: nat, p: Progress,
                     table: ClusterTable, parents: StatusTable, ghost before: Leftover)
    returns (r: Result<Progress, RouteBackend>)
    requires i < |ls| && BuiltUpTo(c, gw, port, ls, index, i, before, p, table.clusters, parents.statuses)
    modifies table, parents
    ensures r.Err? ==> !LinksBuildable(c, AttachmentsUpTo(ls, index, |ls|, 0))
    ensures r.Ok? ==> BuiltUpTo(c, gw, port, ls, index, i + 1, before, r.value, table.clusters, parents.statuses)
  {
    var l := ls[i];
    var next, backends, attachedRoutes := AddListenerRoutes(c, gw, port, ls, index, i, p.hosts, p.backends, table,
                                                             parents, before);
    if next.Err? {
      return Err(next.error);
    }
    var hosts, chain: Option<FilterChain> := next.value, None;
    if Routed(l) {
      var sorted, serialised := BuildFilterChain(c, gw, port, l, hosts, AttachmentsUpTo(ls, index, i + 1, 0));
      hosts, chain := sorted, Some(serialised);
    }
    ChainsOneMore(c, gw, port, ls, index, i, p.chains, chain);
    StatusesOneMore(c, ls, index, i, p.statuses);
    var chains := if chain.Some? then p.chains + [chain.value] else p.chains;
    r := Ok(Progress(hosts, backends, chains, p.statuses + [ListenerStatus(l.name, attachedRoutes)]));
  }

  lemma ChainsOneMore(c: Cluster, gw: Gateway, port: int, ls: seq<Listener>, index: Index, i: nat,
                      chains: seq<FilterChain>, chain: Option<FilterChain>)
    requires i < |ls| && ChainsFor(c, gw, port, ls, index, i, chains) && (chain.Some? <==> Routed(ls[i]))
    requires chain.Some? ==> ChainFor(c, gw, port, ls[i], AttachmentsUpTo(ls, index, i + 1, 0), chain.value)
    ensures ChainsFor(c, gw, port, ls, index, i + 1, if chain.Some? then chains + [chain.value] else chains)
  {
    var more := if chain.Some? then chains + [chain.value] else chains;
    forall k | 0 <= k < i && Routed(ls[k]) ensures HasChain(c, gw, port, ls, index, k, more) {
      ChainStays(c, gw, port, ls, index, k, chains, more);
    }
    if chain.Some? { NewChain(c, gw, port, ls, index, i, chains, chain.value); }
  }

  lemma ChainStays(c: Cluster, gw: Gateway, port: int, ls: seq<Listener>, index: Index, k: nat,
                   chains: seq<FilterChain>, more: seq<FilterChain>)
    requires k < |ls| && HasChain(c, gw, port, ls, index, k, chains) && chains <= more
    ensures HasChain(c, gw, port, ls, index, k, more)
  {
  }

  lemma NewChain(c: Cluster, gw: Gateway, port: int, ls: seq<Listener>, index: Index, i: nat,
                 chains: seq<FilterChain>, chain: FilterChain)
    requires i < |ls| && |chains| == ChainsBefore(ls, i)
    requires ChainFor(c, gw, port, ls[i], AttachmentsUpTo(ls, index, i + 1, 0), chain)
    ensures HasChain(c, gw, port, ls, index, i, chains + [chain])
  {
  }

  lemma StatusesOneMore(c: Cluster, ls: seq<Listener>, index: Index, i: nat, statuses: seq<ListenerStatus>)
    requires i < |ls| && StatusesFor(c, ls[..i], index, statuses)
    ensures StatusesFor(c, ls[..i + 1], index,
                        statuses + [ListenerStatus(ls[i].name, TranslatedRoutes(c, RoutesOn(ls[i], index)))])
  {
    assert ls[..i + 1] == ls[..i] + [ls[i]];
  }

  /** Builds the listener of one port: it succeeds exactly when every listener is valid and every attached route's
      backends are buildable, and then it has built what the attachments call for. */
  method BuildEnvoyListenerForPort(c: Cluster, gw: Gateway, port: int, ls: seq<Listener>, index: Index,
                                   conditions: Conditions, table: ClusterTable, parents: StatusTable,
                                   ghost before: Leftover)
    returns (r: PortOutcome)
    requires table.clusters == TableOf(before.backends) && parents.statuses == before.parents
    modifies table, parents
    ensures r.PortBuilt? <==>
            AllValid(conditions, ls) && LinksBuildable(c, AttachmentsUpTo(ls, index, |ls|, 0))
    ensures r.PortPanicked? ==> !AllValid(conditions, ls)
    ensures r.PortFailed? ==> !LinksBuildable(c, AttachmentsUpTo(ls, index, |ls|, 0))
    ensures r.PortBuilt? ==> PortListener(c, gw, port, ls, index, r.listener)
    ensures r.PortBuilt? ==> r.backends == BackendsOfLinks(c, AttachmentsUpTo(ls, index, |ls|, 0))
    ensures r.PortBuilt? ==> table.clusters == TableOf(before.backends + r.backends)
    ensures r.PortBuilt? ==> parents.statuses == MergedBy(c, before.parents, AttachmentsUpTo(ls, index, |ls|, 0))
    ensures r.PortBuilt? ==> StatusesFor(c, ls, index, r.statuses)
  {
    var p := Progress(map[], [], [], []);
    assert before.backends + p.backends == before.backends && ls[..|ls|] == ls;
    for i := 0 to |ls|
      invariant AllValid(conditions, ls[..i])
      invariant BuiltUpTo(c, gw, port, ls, index, i, before, p, table.clusters, parents.statuses)
    {
      ValidOneMore(conditions, ls, i);
      if !ValidListener(conditions, ls[i]) {
        return PortPanicked;
      }
      var next := AddListener(c, gw, port, ls, index, i, p, table, parents, before);
      if next.Err? {
        return PortFailed(next.error);
      }
      p := next.value;
    }
    var listener := if |p.chains| > 0 then Some(EnvoyListener("listener-" + Signed(port), port, p.chains)) else None;
    r := PortBuilt(listener, p.statuses, p.backends);
  }
}
