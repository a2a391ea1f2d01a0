/** The source language: Gateway listeners, HTTPRoutes and the objects they refer to. */
module GatewayApi {
  import opened Text

  // ----- fixed-width numbers -----

  const TWO_TO_THE_31 := 0x8000_0000
  const TWO_TO_THE_32 := 0x1_0000_0000

  type uint32 = x: int | 0 <= x < TWO_TO_THE_32
  type int32 = x: int | -TWO_TO_THE_31 <= x < TWO_TO_THE_31

  /** Go's uint32(x): the number modulo 2^32. */
  function ToUint32(x: int): (r: uint32)
    ensures 0 <= x < TWO_TO_THE_32 ==> r == x
    ensures -TWO_TO_THE_32 <= x < 0 ==> r == x + TWO_TO_THE_32
  {
    x % TWO_TO_THE_32
  }

  /** Go's int32(x): the number modulo 2^32, with a sign. */
  function ToInt32(x: int): (r: int32)
    ensures -TWO_TO_THE_31 <= x < TWO_TO_THE_31 ==> r == x
    ensures TWO_TO_THE_31 <= x < TWO_TO_THE_32 ==> r == x - TWO_TO_THE_32
  {
    (x + TWO_TO_THE_31) % TWO_TO_THE_32 - TWO_TO_THE_31
  }

  datatype NamespacedName = NamespacedName(namespace: string, name: string)

  // ----- Gateway and listeners -----

  datatype Protocol = HTTP | HTTPS | TLS | TCP | UDP | OtherProtocol(name: string)

  function ProtocolName(p: Protocol): string {
    match p
    case HTTP => "HTTP"
    case HTTPS => "HTTPS"
    case TLS => "TLS"
    case TCP => "TCP"
    case UDP => "UDP"
    case OtherProtocol(name) => name
  }

  datatype FromNamespaces = FromAll | FromSame | FromSelector | FromUnknown(value: string)

  /** A label selector that parses to a set of required labels, or does not parse. */
  datatype LabelSelector = MatchLabels(labels: map<string, string>) | Unparsable

  datatype RouteNamespaces = RouteNamespaces(from: Option<FromNamespaces>, selector: Option<LabelSelector>)

  datatype RouteGroupKind = RouteGroupKind(group: Option<string>, kind: string)

  datatype AllowedRoutes = AllowedRoutes(namespaces: Option<RouteNamespaces>, kinds: seq<RouteGroupKind>)

  datatype Listener = Listener(
    name: string, hostname: Option<string>, port: int32, protocol: Protocol, allowedRoutes: Option<AllowedRoutes>)

  datatype Gateway = Gateway(namespace: string, name: string, listeners: seq<Listener>)

  const GATEWAY_GROUP := "gateway.networking.k8s.io"
  const HTTPROUTE_KIND := "HTTPRoute"

  /** The hostname a listener serves; an unset one and an empty one mean the same. */
  function HostnameOf(l: Listener): string {
    match l.hostname case None => "" case Some(h) => h
  }

  // ----- HTTPRoute -----

  datatype PathMatchType = ExactPath | PathPrefix | RegularExpressionPath | UnknownPathType(name: string)

  datatype HTTPPathMatch = HTTPPathMatch(matchType: Option<PathMatchType>, value: Option<string>)

  datatype ValueMatchType = ExactValue | RegularExpressionValue | UnknownValueType(name: string)

  datatype HTTPHeaderMatch = HTTPHeaderMatch(matchType: Option<ValueMatchType>, name: string, value: string)

  datatype QueryParamMatchType = ExactParam | RegularExpressionParam

  datatype HTTPQueryParamMatch = HTTPQueryParamMatch(
    matchType: Option<QueryParamMatchType>, name: string, value: string)

  datatype HTTPRouteMatch = HTTPRouteMatch(
    path: Option<HTTPPathMatch>, headers: seq<HTTPHeaderMatch>,
    queryParams: seq<HTTPQueryParamMatch>, httpMethod: Option<string>)

  /** The match that a rule without matches stands for. */
  const MATCH_ALL := HTTPRouteMatch(None, [], [], None)

  datatype HTTPHeader = HTTPHeader(name: string, value: string)

  datatype HTTPHeaderFilter = HTTPHeaderFilter(set_: seq<HTTPHeader>, add: seq<HTTPHeader>, remove: seq<string>)

  datatype HTTPPathModifier =
    | ReplaceFullPath(path: Option<string>)
    | ReplacePrefixMatch(prefix: Option<string>)
    | UnknownPathModifier(name: string)

  datatype HTTPRequestRedirectFilter = HTTPRequestRedirectFilter(
    scheme: Option<string>, hostname: Option<string>, path: Option<HTTPPathModifier>,
    port: Option<int32>, statusCode: Option<int>)

  datatype HTTPURLRewriteFilter = HTTPURLRewriteFilter(hostname: Option<string>, path: Option<HTTPPathModifier>)

  datatype HTTPRouteFilter =
    | RequestRedirect(redirect: Option<HTTPRequestRedirectFilter>)
    | RequestHeaderModifier(request: Option<HTTPHeaderFilter>)
    | ResponseHeaderModifier(response: Option<HTTPHeaderFilter>)
    | URLRewrite(rewrite: Option<HTTPURLRewriteFilter>)
    | OtherFilter(name: string)

  datatype BackendRef = BackendRef(
    kind: string, namespace: Option<string>, name: string, port: Option<int32>, weight: Option<int32>)

  datatype HTTPRouteRule = HTTPRouteRule(
    matches: seq<HTTPRouteMatch>, filters: seq<HTTPRouteFilter>, backendRefs: seq<BackendRef>)

  datatype ParentReference = ParentReference(
    namespace: Option<string>, name: string, sectionName: Option<string>, port: Option<int32>)

  datatype HTTPRoute = HTTPRoute(
    namespace: string, name: string, parentRefs: seq<ParentReference>,
    hostnames: seq<string>, rules: seq<HTTPRouteRule>)

  // ----- objects that routes refer to -----

  /** TLS settings of a backend port: absent or mode None, usable (with the server name to ask for, "" if unset), or naming a
      secret that is missing or malformed. */
  datatype BackendTLS = NoTLS | UsableTLS(sni: string) | BrokenTLS

  datatype BackendPort = BackendPort(number: uint32, tls: BackendTLS)

  datatype Destination = Fqdn(hostname: string) | ServiceDestination(name: string) | OtherDestination(name: string)

  datatype XBackendDestination = XBackendDestination(destination: Destination, ports: seq<BackendPort>)

  datatype TargetPort = IntPort(value: int32) | NamedPort(name: string)

  datatype ServicePort = ServicePort(port: int32, targetPort: TargetPort)

  datatype Service = Service(ports: seq<ServicePort>)

  datatype Endpoint = Endpoint(ready: Option<bool>, addresses: seq<string>)

  datatype EndpointSlice = EndpointSlice(endpoints: seq<Endpoint>)

  /** What the informer caches hold while one Gateway is translated. Endpoint slices are found by their namespace
      and the service name they are labelled with. */
  datatype Cluster = Cluster(
    backends: map<NamespacedName, XBackendDestination>,
    services: map<NamespacedName, Service>,
    namespaceLabels: map<string, map<string, string>>,
    endpointSlices: map<NamespacedName, seq<EndpointSlice>>)

  // ----- status conditions -----

  datatype ConditionStatus = ConditionTrue | ConditionFalse | ConditionUnset

  datatype ConditionType = Accepted | ResolvedRefs | Conflicted

  datatype Reason =
    | ReasonAccepted | ReasonResolvedRefs | ReasonBackendNotFound | ReasonUnsupportedValue
    | ReasonNoMatchingParent | ReasonNotAllowedByListeners | ReasonNoMatchingListenerHostname
    | ReasonProtocolConflict | ReasonHostnameConflict | ReasonUnset

  datatype Condition = Condition(kind: ConditionType, status: ConditionStatus, reason: Reason)

  /** The condition of one type, when a list of conditions has one. */
  function FindCondition(conditions: seq<Condition>, kind: ConditionType): Option<Condition> {
    if conditions == [] then None
    else if conditions[0].kind == kind then Some(conditions[0])
    else FindCondition(conditions[1..], kind)
  }

  predicate IsStatusConditionTrue(conditions: seq<Condition>, kind: ConditionType) {
    var c := FindCondition(conditions, kind);
    c.Some? && c.value.status == ConditionTrue
  }

  /** Replaces the condition of the new one's type, or appends it. */
  function SetStatusCondition(conditions: seq<Condition>, c: Condition): (r: seq<Condition>)
    ensures FindCondition(r, c.kind) == Some(c)
    ensures forall k :: k != c.kind ==> FindCondition(r, k) == FindCondition(conditions, k)
  {
    if conditions == [] then [c]
    else if conditions[0].kind == c.kind then [c] + conditions[1..]
    else [conditions[0]] + SetStatusCondition(conditions[1..], c)
  }
}
