/** The target language: Envoy route matches, routes, virtual hosts and clusters, and what they mean. */
module EnvoyApi {
  import opened Text
  import opened Domains

  // ----- requests and matchers -----

  /** A request as routing sees it. The host is in lower case and without a port, and header names are in lower case,
      as HTTP/2 carries them. */
  datatype Request = Request(
    host: string, path: string, httpMethod: string, headers: map<string, string>, query: map<string, string>)

  /** What regular expressions mean: the (pattern, text) pairs that match. */
  type Regexes = iset<(string, string)>

  datatype PathSpecifier =
    | Path(path: string)
    | Prefix(prefix: string)
    | PathSeparatedPrefix(separated: string)
    | SafeRegex(regex: string)

  datatype StringMatcher = Exact(value: string) | Regex(pattern: string)

  datatype HeaderMatcher = HeaderMatcher(name: string, matcher: StringMatcher)

  datatype QueryParameterMatcher = QueryParameterMatcher(name: string, exact: string)

  datatype RouteMatch = RouteMatch(
    pathSpecifier: PathSpecifier, headers: seq<HeaderMatcher>, queryParameters: seq<QueryParameterMatcher>)

  ghost predicate StringMatches(m: StringMatcher, re: Regexes, text: string) {
    match m
    case Exact(value) => text == value
    case Regex(pattern) => (pattern, text) in re
  }

  ghost predicate PathAccepts(p: PathSpecifier, re: Regexes, path: string) {
    match p
    case Path(exact) => path == exact
    case Prefix(prefix) => prefix <= path
    case PathSeparatedPrefix(prefix) => path == prefix || prefix + "/" <= path
    case SafeRegex(regex) => (regex, path) in re
  }

  ghost predicate HeaderAccepts(h: HeaderMatcher, re: Regexes, req: Request) {
    ToLower(h.name) in req.headers && StringMatches(h.matcher, re, req.headers[ToLower(h.name)])
  }

  ghost predicate QueryAccepts(q: QueryParameterMatcher, req: Request) {
    q.name in req.query && req.query[q.name] == q.exact
  }

  /** Envoy takes a route when its path, every header and every query parameter matcher accept. */
  ghost predicate Accepts(m: RouteMatch, re: Regexes, req: Request) {
    && PathAccepts(m.pathSpecifier, re, req.path)
    && (forall h :: h in m.headers ==> HeaderAccepts(h, re, req))
    && (forall q :: q in m.queryParameters ==> QueryAccepts(q, req))
  }

  // ----- routes -----

  datatype HeaderValueOption = HeaderValueOption(name: string, value: string, overwrite: bool)

  /** The values of a header, none if it is absent, after one option; names are compared in lower case. */
  function AfterOption(values: seq<string>, name: string, o: HeaderValueOption): seq<string> {
    if ToLower(o.name) != name then values else if o.overwrite then [o.value] else values + [o.value]
  }

  function AfterOptions(values: seq<string>, name: string, os: seq<HeaderValueOption>): seq<string> {
    if os == [] then values else AfterOption(AfterOptions(values, name, os[..|os| - 1]), name, os[|os| - 1])
  }

  predicate ListsHeader(names: seq<string>, name: string) { exists r :: r in names && ToLower(r) == name }

  /** Envoy removes the headers that a route removes, and then adds what it adds, in order. */
  function EnvoyHeader(values: seq<string>, name: string, add: seq<HeaderValueOption>, remove: seq<string>): seq<string> {
    AfterOptions(if ListsHeader(remove, name) then [] else values, name, add)
  }

  datatype RedirectAction = RedirectAction(
    scheme: Option<string>, host: string, pathRedirect: Option<string>, prefixRewrite: Option<string>,
    port: int, responseCode: int)

  datatype ClusterWeight = ClusterWeight(name: string, weight: int, hostRewrite: Option<string>)

  datatype RouteAction = RouteAction(
    weightedClusters: seq<ClusterWeight>, hostRewrite: Option<string>,
    regexRewrite: Option<string>, prefixRewrite: string)

  datatype Action = Redirect(redirect: RedirectAction) | DirectResponse(status: int) | Forward(forward: RouteAction)

  datatype Route = Route(
    name: string, routeMatch: RouteMatch, action: Action,
    requestHeadersToAdd: seq<HeaderValueOption>, requestHeadersToRemove: seq<string>,
    responseHeadersToAdd: seq<HeaderValueOption>, responseHeadersToRemove: seq<string>)

  /** The clusters a route may forward to. */
  function ClustersOf(r: Route): seq<ClusterWeight> {
    if r.action.Forward? then r.action.forward.weightedClusters else []
  }

  /** Envoy serves a request with the first route of the list that accepts it. */
  ghost function FirstMatch(routes: seq<Route>, re: Regexes, req: Request): (r: Option<Route>)
    ensures r.Some? ==> r.value in routes && Accepts(r.value.routeMatch, re, req)
    ensures r.None? ==> forall x :: x in routes ==> !Accepts(x.routeMatch, re, req)
  {
    if routes == [] then None
    else if Accepts(routes[0].routeMatch, re, req) then Some(routes[0])
    else FirstMatch(routes[1..], re, req)
  }

  /** The first match is at some index below which nothing accepts. */
  lemma {:induction false} FirstMatchIndex(routes: seq<Route>, re: Regexes, req: Request) returns (k: nat)
    requires FirstMatch(routes, re, req).Some?
    ensures k < |routes| && routes[k] == FirstMatch(routes, re, req).value
    ensures forall i :: 0 <= i < k ==> !Accepts(routes[i].routeMatch, re, req)
  {
    if Accepts(routes[0].routeMatch, re, req) {
      k := 0;
    } else {
      var j := FirstMatchIndex(routes[1..], re, req);
      k := j + 1;
      forall i | 0 <= i < k ensures !Accepts(routes[i].routeMatch, re, req) {
        if i > 0 { assert routes[i] == routes[1..][i - 1]; }
      }
    }
  }

  datatype VirtualHost = VirtualHost(name: string, domain: string, routes: seq<Route>)

  /** Envoy serves a request on the virtual host with the most specific domain that covers its host. */
  function SelectHost(vhs: seq<VirtualHost>, host: string): (r: Option<VirtualHost>)
    ensures r.None? <==> forall vh :: vh in vhs ==> !Covers(vh.domain, host)
    ensures r.Some? ==> r.value in vhs && Covers(r.value.domain, host)
    ensures r.Some? ==> forall vh :: vh in vhs && Covers(vh.domain, host) ==> !MoreSpecific(vh.domain, r.value.domain)
  {
    if vhs == [] then None
    else
      var rest := SelectHost(vhs[1..], host);
      if !Covers(vhs[0].domain, host) then rest
      else if rest.Some? && MoreSpecific(rest.value.domain, vhs[0].domain) then rest
      else Some(vhs[0])
  }

  /** The route that a configuration answers a request with: the first match on the selected virtual host. There is no
      second virtual host for a request that the selected one does not answer. */
  ghost function Answer(vhs: seq<VirtualHost>, re: Regexes, req: Request): Option<Route> {
    match SelectHost(vhs, req.host)
    case None => None
    case Some(vh) => FirstMatch(vh.routes, re, req)
  }

  /** One HTTP connection manager with the virtual hosts it was serialised with. */
  datatype FilterChain = FilterChain(
    routeConfigName: string, serverNames: Option<string>, virtualHosts: seq<VirtualHost>)

  /** The names that a chain is for; one without server names is for all. */
  function NameDomain(serverNames: Option<string>): string { match serverNames case None => "*" case Some(h) => h }

  /** Envoy serves a TLS connection with the chain that has the most specific server name for the one asked for. */
  function SelectChain(chains: seq<FilterChain>, sni: string): (r: Option<FilterChain>)
    ensures r.None? <==> forall ch :: ch in chains ==> !Covers(NameDomain(ch.serverNames), sni)
    ensures r.Some? ==> r.value in chains && Covers(NameDomain(r.value.serverNames), sni)
    ensures r.Some? ==> forall ch :: ch in chains && Covers(NameDomain(ch.serverNames), sni) ==>
              !MoreSpecific(NameDomain(ch.serverNames), NameDomain(r.value.serverNames))
  {
    if chains == [] then None
    else
      var rest := SelectChain(chains[1..], sni);
      if !Covers(NameDomain(chains[0].serverNames), sni) then rest
      else if rest.Some? && MoreSpecific(NameDomain(rest.value.serverNames), NameDomain(chains[0].serverNames)) then rest
      else Some(chains[0])
  }

  datatype EnvoyListener = EnvoyListener(name: string, port: int, filterChains: seq<FilterChain>)

  // ----- clusters and endpoints -----

  datatype Discovery = LogicalDns(host: string, port: int) | Eds(serviceName: string)

  /** tls is the server name that is asked for over TLS; None means plain text. */
  datatype EnvoyCluster = EnvoyCluster(name: string, discovery: Discovery, tls: Option<string>)

  datatype LbEndpoint = LbEndpoint(address: string, port: int, healthy: bool)

  datatype ClusterLoadAssignment = ClusterLoadAssignment(clusterName: string, endpoints: seq<LbEndpoint>)
}
