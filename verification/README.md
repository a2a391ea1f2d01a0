# A verified model of the Gateway API to Envoy translator

The backend control plane under `prototypes/backend-control-plane` watches Gateways and HTTPRoutes, compiles each
Gateway to Envoy configuration (listeners, virtual hosts, clusters, endpoints), and pushes it to the Gateway's proxies.
This project models that compiler, the reconcile loop around it and the manifest splitter in Dafny, and proves what they
promise. `dafny verify dfyconfig.toml` checks everything.

Both ends of the compiler get a meaning: `RouteMatching.Matches` and the hostname predicates say what a Gateway API object
selects, `EnvoyApi.SelectHost`, `EnvoyApi.Accepts` and `EnvoyApi.FirstMatch` say which virtual host and which route of a
configuration Envoy serves a request with. The main results relate the two over all Gateways, routes, cluster contents and
requests; regular expressions are an arbitrary relation. `RouteMatching.Takes` is what the translation makes of a match,
`RouteMatching.Matches` what the API says; the routing theorems hold of all routes in terms of the first, and
`RouteMatching.FaithfulExactly` says when the two agree.

| module | what it covers |
|---|---|
| `Text`, `Names` | strings, decimal numerals, the name formats and when two names coincide |
| `Domains` | which hosts a hostname covers, and which of two is more specific |
| `GatewayApi`, `EnvoyApi` | source and target language, informer caches, status conditions |
| `RouteMatching` | one match: translation, and exactly when it is faithful |
| `Sorting`, `Precedence` | the in-place sort, the comparator, first match over a sorted list |
| `Backends` | references to weighted clusters and backends |
| `RouteTranslation`, `RouteProperties` | one HTTPRoute: compilation, and what it preserves |
| `HeaderModifiers`, `Rewrites` | what filters do: headers header by header, where paths are forwarded and clients sent |
| `Hostnames`, `Attachment` | hostname intersection, which routes attach where, their statuses |
| `ListenerPolicy` | whom each namespace policy and kind list admits |
| `ListenerConflicts` | listeners that may not share a port |
| `Clusters`, `VirtualHosts`, `RouteStatuses` | the cluster table, endpoint assignments, the virtual hosts of a port, the statuses of routes |
| `PortBuild`, `XdsBuild`, `XdsProperties` | one port, the whole Gateway, and what holds of every build |
| `Targets` | references told from the cached objects: where clusters point, what can be built, what is reported |
| `Consistency` | when the endpoints of a build are those its clusters ask for |
| `Translator` | attachment and build together: which routes reach which chain, and what routes are told |
| `EndToEnd`, `Destinations` | from the request to the HTTPRoute (host, virtual host, route), and on to the backend |
| `Isolation`, `ServerNames` | listeners that share a port: whose routes a chain serves, and which chain a server name selects |
| `HostnamePrecedence`, `Ties`, `HostAnswers` | hostnames that rank HTTPRoutes, rules that tie, what a virtual host may answer |
| `Witnesses` | small Gateways for the examples |
| `ControlPlane`, `Reconcile`, `Convergence` | version counter and snapshot cache; workers and queue as interleaved steps; what proxies end up with |
| `Manifests` | document splitting, indentation, service ports |

Code that loops and mutates is a method with its loops, arrays and maps, proved against a specification function; iteration
over a Go map is an arbitrary order. Loop bodies of more than a few lines are methods of their own. Informer caches are the
immutable `Cluster`, in which a lookup can only fail with "not found".

## Where code and promise differ

Each entry names the members that state it; where the code meets the promise under a condition, the condition is exact.

- The method of a match is dropped, and does not count in precedence either (`RouteProperties.MethodInversionHappens`); all entries of a repeated header or query
  parameter are required where the API keeps the first; and regular expressions on query parameters are taken literally:
  the comment at `prototypes/backend-control-plane/pkg/translator/envoy/httproute.go:726` knows only Exact
  (`RouteMatching.FaithfulExactly`, `RouteProperties.OutranksIsBefore`).
- A prefix rewrite makes the emitted prefix one character longer, which can invert precedence, and loses the path that equals
  the prefix (`RouteProperties.SwitchedExactly`, `CompiledServes`, `OutranksIsBefore`, `RewriteInversionHappens`); a
  replacement without a trailing "/" drops a separator (`Rewrites.ForwardedRightExactly`). Redirects keep the separated prefix,
  so there a replacement with a trailing "/" doubles the separator (`Rewrites.RedirectRightExactly`).
- A redirect's status code is cast to Envoy's enum, whose values are 0 to 4 (`RouteTranslation.RedirectStatusExactly`), a
  hostname rewrite without a path rewrite is dropped (`Rewrites.HostnameRewriteHonouredExactly`), and a redirect to a port that
  is not positive, or to an empty host, does not go there (`Rewrites.RedirectLocationExactly`).
- The header modifiers of a rule are collected into one list of additions and one of removals, and Envoy removes first: what
  one modifier gives and a later one removes is there again (`HeaderModifiers.HeadersExactly`, `RemovedHeaderComesBack`).
- `sort.Slice` does not promise to be stable although the comment at
  `prototypes/backend-control-plane/pkg/translator/envoy/httproute.go:787` says so. A stable sort lets the first rule in list
  order answer among rules that tie; what `sort.Slice` promises ensures this if and only if no best rules tie (`Ties.FirstRuleWinsExactly`,
  `Precedence.AnswerFixedExactly`, `Precedence.OrderFixedExactly`, `Ties.SecondRuleMayAnswer`), and so it is between the
  HTTPRoutes of a virtual host (`HostAnswers.HostAnswerFixedExactly`, `HostAnswers.EitherMayAnswer`).
- The listener "d" is opened by the route wildcard "*.d", and a route wildcard broader than the listener's is dropped
  (`Hostnames.IntersectionExactly`).
- A request that a route serves can stay unanswered because another route claims a more specific domain: Envoy looks at one
  virtual host only, and routes on a wildcard are not copied to the names below it (`EndToEnd.LostExactly`,
  `EndToEnd.ShadowingHappens`).
- On a listener with a name, routes on the name and on wildcards above it share a virtual host, where only their matches are
  compared, although the API prefers the longer hostname (`HostnamePrecedence.HostnameHonouredExactly`,
  `HostnameRanksExactly`, `HostnamePrecedenceMissed`).
- The virtual hosts of a port are shared by its listeners, so a filter chain also serves the routes of the listeners before
  its own, unless they are its own anyway (`Isolation.IsolatedExactly`, `SharedExactly`, `SiblingServed`,
  `ServerNames.ForeignRouteAnswers`). Two HTTP listeners
  of one port with different hostnames do not conflict, yet their chains are not told apart by server names
  (`XdsProperties.ServerNamesDistinctExactly`, `Witnesses.NamelessChainsClash`).
- Endpoints are looked up under the backend's cluster name, "synsvc-" plus the name for a reference to a Service and the
  Backend's own name for a Backend: they are the Service's endpoints only for a Backend that is called like its Service
  (`Clusters.ServiceEndpointsExactly`, `Clusters.ServiceEndpointsMissed`).
- Cluster names may coincide across namespaces, and between an FQDN backend and a Service (`Names.ClusterNamesCoincide`,
  `Clusters.NamesCanBeShared`); the snapshot is then refused whenever the DNS cluster is written last
  (`Consistency.ClashRefused`, `Consistency.ConsistentInEveryOrder`), and with two DNS backends the traffic of one goes to
  the other, with two EDS backends their endpoints compete (`Destinations.ReachesInEveryOrder`, `TrafficMisdirected`,
  `EndpointsMixed`).
- A reference that gets no traffic can fail the build of its Gateway (`XdsProperties.IdleServiceBlocksBuild`), and so can
  broken TLS settings of a port that no route uses (`Targets.BrokenTlsBlocksBuild`).
- A port of 2^31 or more is printed as a negative number in weighted clusters (`Names.PortPrintedAlike`), hence the condition
  `PortsFit` of referential integrity; the API's validation bounds ports by 65535.
- An invalid listener has a nil status that is dereferenced
  (`prototypes/backend-control-plane/pkg/translator/envoy/translator.go:373-376`): the model's outcome is `Panicked`
  (`XdsBuild.BuildXDSFromGatewayAndRoutes`, `Witnesses.ConflictPanics`).
- A Gateway that is deleted while the watch is down, or that changes its class, is not cleaned up, and one of another class is
  served once an HTTPRoute event asks for it: the handler looks for a Gateway of our class in the event
  (`Convergence.NothingLeftBehind`, `LeavingIsMissed`, `OtherClassServed`).
- Versions per node are monotone, and proxies end up with their own Gateway's configuration, only while node IDs differ, and
  those are truncated digests (`Reconcile.MonotoneExactly`, `Convergence.ConvergesExactly`).

## Model

| member | source | states |
|---|---|---|
| EndToEnd.AnsweredByAttachedPair | prototypes/backend-control-plane/pkg/translator/envoy/translator.go:80-91 | End to end, soundness: whatever the filter chain of a listener answers a request with, on the virtual host that Envoy selects for its host, was compiled from a rule and match that serves the request, of an HTTPRoute in the lister that attaches to this listener or to one before it on the port; listener and route both cover the host, or it is the listener's own name let in by "*." plus that name; and no rule and match of any HTTPRoute on the selected virtual host that serves the request ranks above it under the Gateway API, up to the inversions of OutranksIsBefore. |
| EndToEnd.AttachedPairIsAnswered | prototypes/backend-control-plane/pkg/translator/envoy/translator.go:80-91 | End to end, completeness: a request that a rule and match of an attached HTTPRoute serves, on a host that the attachment's domains cover, is left unanswered by the listener's own filter chain if and only if the attachment is shadowed: a strictly more specific domain of the chain covers the host and nobody attached to that domain serves the request. On a virtual host of the attachment the answer comes from an HTTPRoute in the lister that attaches to this listener or to one before it on the port, on that domain, and the pair does not outrank it, up to inversions. |
| EndToEnd.LostExactly | prototypes/backend-control-plane/pkg/translator/envoy/translator.go:409-440 | The same of any list of attachments and the virtual hosts built from it. |
| EndToEnd.UnansweredExactly | prototypes/backend-control-plane/pkg/translator/envoy/translator.go:409-440 | A virtual host leaves a request unanswered if and only if no rule and match of any attachment to its domain serves it. |
| EndToEnd.SelectedDomainExactly | prototypes/backend-control-plane/pkg/translator/envoy/translator.go:411-440 | The virtual host that Envoy selects for a host is that of the most specific domain that some attachment with routes has. |
| EndToEnd.CoveredIsServed | prototypes/backend-control-plane/pkg/translator/envoy/routes.go:139-225 | A host that listener and route both cover is covered by a domain of the attachment, unless a broader route wildcard was dropped. |
| EndToEnd.ShadowingHappens | prototypes/backend-control-plane/pkg/translator/envoy/translator.go:409-440 | Shadowing happens: in every build of a Gateway with one HTTP listener, an attached route on "a.d" hides an attached route on "*.d" from every path that it does not take itself. |
| ServerNames.SelectedExactly | prototypes/backend-control-plane/pkg/translator/envoy/helpers.go:328-340 | When the chains of a port ask for distinct server names, Envoy selects the chain of a listener for a server name if and only if the listener is the nearest to it: its own name takes it and that of no other listener of the port that is more specific does. |
| ServerNames.NobodySelectedExactly | prototypes/backend-control-plane/pkg/translator/envoy/helpers.go:328-340 | No chain is selected if and only if no HTTP or HTTPS listener of the port takes the server name. |
| ServerNames.NearestListenerAnswers | prototypes/backend-control-plane/pkg/translator/envoy/translator.go:371-460 | Whatever answers a request over a connection for a server name comes from the nearest listener's chain: from an HTTPRoute that attaches to it or to a listener before it on the port, and from one of its own if its chain is isolated. |
| ServerNames.NearestPairIsAnswered | prototypes/backend-control-plane/pkg/translator/envoy/translator.go:371-460 | Over a connection for a server name that a listener is the nearest to, what a rule and match of an HTTPRoute attached to it serves is left unanswered if and only if the attachment is shadowed. |
| ServerNames.ForeignRouteAnswers | prototypes/backend-control-plane/pkg/translator/envoy/translator.go:366-440 | Of any two HTTPS listeners with names on one port, the second one's chain, selected by its own name, answers requests for a host of the first with a route that only the first one takes. |
| HostAnswers.MayAnswerExactly | prototypes/backend-control-plane/pkg/translator/envoy/translator.go:427-433 | The pairs that no serving pair of any HTTPRoute on the domain precedes are those whose routes are maximal on the virtual host. |
| HostAnswers.HostAnswerFixedExactly | prototypes/backend-control-plane/pkg/translator/envoy/translator.go:427-433 | The answer of a virtual host that merges several HTTPRoutes is the same however its ties are sorted, if and only if all pairs that may answer have one route. |
| HostAnswers.OneRouteOnePair | prototypes/backend-control-plane/pkg/translator/envoy/httproute.go:134-134 | When no two HTTPRoutes share the text "namespace-name", pairs with one route are one rule and match of one HTTPRoute. |
| HostAnswers.EitherMayAnswer | prototypes/backend-control-plane/pkg/translator/envoy/translator.go:427-433 | Otherwise it is open: of two HTTPRoutes with one rule and match on one domain either may answer. |
| HostnamePrecedence.HostnameRanksExactly | prototypes/backend-control-plane/pkg/translator/envoy/routes.go:139-182 | Of two attachments with one best domain for a host, one that lists the domain outranks the other by hostname if and only if the other does not list it, and is never outranked: only the hostname of a listener brings in routes of lower rank. |
| HostnamePrecedence.SelectedIsBest | prototypes/backend-control-plane/pkg/translator/envoy/translator.go:411-440 | On the selected virtual host all attachments have one best domain for the host, that of the virtual host. |
| HostnamePrecedence.HostnameHonouredExactly | prototypes/backend-control-plane/pkg/translator/envoy/translator.go:409-440 | A virtual host is sure to answer a request with a route of highest hostname rank, however its ties are sorted, if and only if every serving pair that no serving pair precedes (a condition on rules, matches and hostnames) has the route of a pair of highest rank. |
| HostnamePrecedence.HostnamePrecedenceMissed | prototypes/backend-control-plane/pkg/translator/envoy/translator.go:409-440 | It can miss: on a listener for "a.d", in every build, an attached route on "*.d" answers although one on "a.d" serves the request too, because its path prefix is longer. |
| Destinations.ReferenceBehind | prototypes/backend-control-plane/pkg/translator/envoy/httproute.go:414-498 | Every weighted cluster of a compiled pair has the weight of a reference of its rule and the name of the port that this reference means. |
| Destinations.DestinationExactly | prototypes/backend-control-plane/pkg/translator/envoy/translator.go:404-406 | The emitted cluster of a backend port's name is this backend's if and only if the last backend port of that name, along the ports in the order they were visited, yields the same cluster. |
| Destinations.DestinationInEveryOrder | prototypes/backend-control-plane/pkg/translator/envoy/translator.go:309-345 | No order of the ports can mislead a reference if and only if, on every port where the name occurs, its last backend port yields the same cluster; then every build emits it. |
| Destinations.EndpointsExactly | prototypes/backend-control-plane/pkg/translator/envoy/translator.go:255-285 | In every build, whatever the order of the ports, the endpoints given under the name of an EDS backend's port are those found for this backend and no others, if and only if all EDS backend ports of the Gateway with that name yield the same assignment. |
| Destinations.ReachesInEveryOrder | prototypes/backend-control-plane/pkg/translator/envoy/translator.go:309-345 | Whatever the order of the ports, cluster and endpoints of a name are those of a backend, if and only if on every port where the name occurs its last backend port yields the same cluster, and all EDS backend ports of the name the same assignment; then they are so in every build. |
| Destinations.AnswerReachesBackend | prototypes/backend-control-plane/pkg/translator/envoy/translator.go:80-91 | From the request to the backend: for every weighted cluster of an answer there is exactly one emitted cluster of its name; it, and with endpoint discovery the endpoints given for it, are those of the backend meant by a reference of the answering rule, if and only if the conditions above hold along the order of the ports. Then the cluster points where the cached object of this reference says, and the endpoints are those that the slices hold (Targets.PointsTo, EndpointsTold). |
| Destinations.TrafficMisdirected | prototypes/backend-control-plane/pkg/translator/envoy/translator.go:404-406 | It can fail silently: FQDN Backends "c" in "a-b" and "b-c" in "a" on one port share a cluster name, every build of a Gateway that splits traffic between them passes the consistency check, and all traffic goes to the second. |
| Destinations.EndpointsMixed | prototypes/backend-control-plane/pkg/translator/envoy/translator.go:255-285 | So can this: two Backends of Services with one such name and different endpoints have one cluster, every build passes the check, and two assignments of its name compete. |
| Translator.TranslateGatewayAndReferencesToXDS | prototypes/backend-control-plane/pkg/translator/envoy/translator.go:80-92 | The index holds exactly the attachments; the build succeeds if and only if every listener is valid and every linked route buildable, otherwise it names which of the two failed; on success the resources are a build of the Gateway. |
| Translator.EmittedRouteIsAttached | prototypes/backend-control-plane/pkg/translator/envoy/translator.go:94-128 | Every route of a listener's filter chain comes from an HTTPRoute that attaches to this listener or to an HTTP/HTTPS listener before it on the port, on a domain the two share. |
| Translator.ListenerChain | prototypes/backend-control-plane/pkg/translator/envoy/translator.go:371-460 | Every HTTP/HTTPS listener has its own filter chain in the Envoy listener of its port, both named after what they are for, built from the attachments up to this listener; and all routes that attach to the listener are among them. |
| Isolation.IsolatedExactly | prototypes/backend-control-plane/pkg/translator/envoy/translator.go:366-440 | The chain of a listener serves no routes but the listener's own if and only if every route attached to an earlier HTTP/HTTPS listener of the port brings to its domains only what the listener's own attachments serve there; the virtual hosts of a port are shared. |
| Isolation.IsolationMeaning | prototypes/backend-control-plane/pkg/translator/envoy/translator.go:409-440 | For the emitted chain this means that every route on every virtual host was compiled from an HTTPRoute that attaches to the chain's listener, on that domain. |
| Isolation.SharedExactly | prototypes/backend-control-plane/pkg/translator/envoy/translator.go:366-440 | It holds if every route attached to an earlier listener compiles to nothing or attaches to this listener too, on all the domains it has there; and only then, when no two HTTPRoutes share the text "namespace-name". |
| Isolation.SiblingServed | prototypes/backend-control-plane/pkg/translator/envoy/translator.go:366-440 | It fails for any two HTTPS listeners of a port and a route that the hostname of the first allows and that of the second does not: every build serves it, with all its routes, in the second one's chain. |
| Isolation.ServedTwiceIsIsolated | prototypes/backend-control-plane/pkg/translator/envoy/translator.go:409-424 | It is not about numbers: a route that attaches to both listeners on the same domains is listed twice in the second chain, which serves nothing else. |
| Translator.NoRouteAddedExactly | prototypes/backend-control-plane/pkg/translator/envoy/translator.go:366-440 | With numbers: the chain of a listener lists the listener's own routes once each and nothing else if and only if the routes of every listener before it on the port compile to nothing. |
| Translator.AttachedRouteIsServed | prototypes/backend-control-plane/pkg/translator/envoy/translator.go:409-424 | Every attached HTTPRoute that compiles to anything is served, with all of its Envoy routes, by its listener's own filter chain. |
| Translator.EnvoyPortsExposed | prototypes/backend-control-plane/pkg/deployer/envoy/renderer.go:119-140 | Every port Envoy listens on is among the ports of the proxy's service. |
| Translator.ReportedExactly | prototypes/backend-control-plane/pkg/translator/envoy/translator.go:388-397 | What a route is told about each reference to the Gateway, whatever the order of ports and listeners: Accepted=True if and only if some listener takes the reference, and the outcome of resolving its backends if and only if it is accepted there and some HTTP/HTTPS listener of the Gateway takes the route. |
| Translator.AttachedRoutesExactly | prototypes/backend-control-plane/pkg/translator/envoy/translator.go:408-410 | The number of attached routes that a listener reports is that of the routes in the lister that attach to it and have a match that is not rejected; none unless it is an HTTP/HTTPS listener. |
| RouteMatching.TranslateHTTPRouteMatch | prototypes/backend-control-plane/pkg/translator/envoy/httproute.go:653-740 | A match is translated unless its path has no value or it uses an unknown type; the condition says which, and the matcher has one entry per header and query parameter, in order. |
| RouteMatching.PrefixMeansElements | prototypes/backend-control-plane/pkg/translator/envoy/httproute.go:670-676 | For every prefix value, also with "//" or without a leading "/", the emitted path matcher accepts a path if and only if the value's "/"-separated elements are a prefix of the path's. |
| RouteMatching.PathPreserved | prototypes/backend-control-plane/pkg/translator/envoy/httproute.go:656-691 | The emitted path specifier selects the paths the path match selects, for every path match type. |
| RouteMatching.TakenExactly | prototypes/backend-control-plane/pkg/translator/envoy/httproute.go:653-740 | For every match that is not rejected: the matcher accepts exactly the requests with a path the match selects, all of its header entries, all of its query parameter entries literally, and any method. |
| RouteMatching.MatchPreserved | prototypes/backend-control-plane/pkg/translator/envoy/httproute.go:653-740 | Without a method and with repeated names that agree, this is what the match selects, whatever regular expressions mean. |
| RouteMatching.FaithfulExactly | prototypes/backend-control-plane/pkg/translator/envoy/httproute.go:653-740 | Exactly which matches are translated faithfully: no method, repeated header names agree, and query parameters are Exact and do not disagree (or the match selects nothing at all). |
| RouteMatching.HeaderConflictUnfaithful | prototypes/backend-control-plane/pkg/translator/envoy/httproute.go:693-722 | Two header entries of one name that differ make Envoy refuse a request the match selects, since all entries are ANDed and the API keeps the first. |
| RouteMatching.ParamConflictUnfaithful | prototypes/backend-control-plane/pkg/translator/envoy/httproute.go:724-736 | A query parameter that the API reads as a regular expression, or that repeats a name with another value, makes Envoy refuse a request the match selects. |
| RouteMatching.MethodUnfaithful | prototypes/backend-control-plane/pkg/translator/envoy/httproute.go:653-740 | The method of a match is dropped: Envoy then takes a request that the match refuses. |
| RouteMatching.NeverWiderWithoutMethod | prototypes/backend-control-plane/pkg/translator/envoy/httproute.go:653-740 | With no method set and Exact query parameters, Envoy never takes a request that the match does not select. |
| Sorting.SortSlice | prototypes/backend-control-plane/pkg/translator/envoy/httproute.go:743-744 | In-place sort by a strict weak order: the result is sorted and a permutation; nothing is said about ties. |
| Sorting.SortsAgreeUpToTies | prototypes/backend-control-plane/pkg/translator/envoy/httproute.go:743-790 | Any two sorts of one list have, at each position, elements that the comparator does not order. |
| Precedence.BeforeIsStrictWeak | prototypes/backend-control-plane/pkg/translator/envoy/httproute.go:744-789 | The five-key comparator is a strict weak order. |
| Precedence.SortRoutes | prototypes/backend-control-plane/pkg/translator/envoy/httproute.go:743-790 | Sorting routes yields a permutation in precedence order. |
| Precedence.FirstMatchIsMaximal | prototypes/backend-control-plane/pkg/translator/envoy/httproute.go:743-790 | In a sorted list the first route that accepts a request has maximal precedence among all that accept it. |
| Precedence.CatchAllsLast | prototypes/backend-control-plane/pkg/translator/envoy/httproute.go:748-756 | A sorted list ends in one block that holds all of its catch-alls and nothing else. |
| Precedence.SortedListsAgreeUpToTies | prototypes/backend-control-plane/pkg/translator/envoy/httproute.go:787-788 | The order of ties, which sort.Slice leaves open although a comment calls the sort stable, is all that two sorts of one list can differ in. |
| Precedence.OrderFixedExactly | prototypes/backend-control-plane/pkg/translator/envoy/httproute.go:743-790 | A list of routes has just one sort if and only if any two different routes of it are ordered by the comparator. |
| Precedence.PossibleAnswersExactly | prototypes/backend-control-plane/pkg/translator/envoy/httproute.go:787-788 | The routes that some sort of a list answers a request with are exactly those that accept it and that no accepting route comes before. |
| Precedence.AnswerFixedExactly | prototypes/backend-control-plane/pkg/translator/envoy/httproute.go:787-788 | Every sort answers a request as a stable sort would, as the comment promises, if and only if at most one accepting route is maximal. |
| Ties.FirstRuleWinsExactly | prototypes/backend-control-plane/pkg/translator/envoy/httproute.go:743-790 | A stable sort answers with the first, in list order, of the serving rules and matches of an HTTPRoute that none precedes, as the Gateway API asks; the sort in use is sure to, if and only if there is at most one such pair. |
| Ties.SecondRuleMayAnswer | prototypes/backend-control-plane/pkg/translator/envoy/httproute.go:787-788 | Otherwise it need not: of two rules with one match, some sort of the compiled routes answers with the second. |
| Backends.FetchBackend | prototypes/backend-control-plane/pkg/translator/envoy/httproute.go:517-650 | The lookup computes Backends.Fetched: a backend, or the reason there is none. What that says is told from the cached objects: Targets.ClusterTarget (host, port, TLS, name), AssignmentTarget (endpoints), ReferenceBuildableExactly and ReferenceErrorExactly (the reasons). |
| Backends.ResolvePort | prototypes/backend-control-plane/pkg/translator/envoy/httproute.go:433-483 | The port is the number of the first of the backend's ports that the reference's port selects: by target port for a Backend, by frontend port for a Service. |
| Backends.ServiceReferenceExactly | prototypes/backend-control-plane/pkg/translator/envoy/httproute.go:459-483 | A weighted reference to a Service resolves if and only if some port of the Service has the reference's number and a numeric target; it then names the target (or the port itself, if the target is not positive) of the first such port. |
| Backends.BuildHTTPRouteAction | prototypes/backend-control-plane/pkg/translator/envoy/httproute.go:405-514 | The action of a rule, or the error of the first reference that fails. |
| Backends.FirstErrorWins | prototypes/backend-control-plane/pkg/translator/envoy/httproute.go:414-423 | Once a prefix of the references fails, its error is the error of the whole list. |
| Backends.ClustersFaithful | prototypes/backend-control-plane/pkg/translator/envoy/httproute.go:414-498 | On success the weighted clusters are, one for one and in order, the references of non-zero weight, each with its weight and the name of the port it selects. |
| Backends.WeightsFaithful | prototypes/backend-control-plane/pkg/translator/envoy/httproute.go:425-431 | For non-negative weights the total weight of the clusters equals the sum of the references' weights (default 1), and is at least the number of clusters. |
| Backends.BackendsFaithful | prototypes/backend-control-plane/pkg/translator/envoy/httproute.go:415-424 | On success the backends returned are those of the references, one for one and in order, zero weights included. |
| Backends.ForwardsToReturnedBackends | prototypes/backend-control-plane/pkg/translator/envoy/httproute.go:485-498 | Every weighted cluster is named after a port of one of the backends returned. |
| Targets.ClusterTarget | prototypes/backend-control-plane/pkg/translator/envoy/helpers.go:34-92 | What a reference means gets a cluster that points where the cached object says: for a Backend it is called after it and its port, dials the host of an FQDN at this port or discovers endpoints under its own name, and uses TLS if and only if the first of the object's ports with this number has usable TLS settings, for their server name or else the host of the object; for a Service it discovers endpoints under its own name, in plain text, at the target of the first port on offer. |
| Targets.AssignmentTarget | prototypes/backend-control-plane/pkg/translator/envoy/helpers.go:371-432 | The endpoints made for it are the addresses, at this port, of the endpoints in the slices labelled with the Backend's name, or with "synsvc-" and the Service's, that do not say they are not ready; healthy are those that say they are. |
| Targets.ReferenceBuildableExactly | prototypes/backend-control-plane/pkg/translator/envoy/helpers.go:38-84 | Clusters can be made for a reference if and only if it names a cached Backend that has ports, none of them with broken TLS, and a host if it is an FQDN, or a cached Service that has a port with a numeric target. |
| Targets.BuildableExactly | prototypes/backend-control-plane/pkg/translator/envoy/translator.go:288-352 | A Gateway can be built if and only if no listener allows another kind than HTTPRoute or is in conflict, and every reference of every rule that forwards, of every route linked to it, names such an object. |
| Targets.BrokenTlsBlocksBuild | prototypes/backend-control-plane/pkg/translator/envoy/helpers.go:77-84 | So broken TLS settings of any port of a Backend make the build of every Gateway fail that has a route forwarding to it. |
| Targets.ReferenceErrorExactly | prototypes/backend-control-plane/pkg/translator/envoy/httproute.go:405-514 | What is wrong with a reference: BackendNotFound if its object is missing, UnsupportedValue for another kind or destination, ResolvedRefs if it gets traffic and means no port, and nothing otherwise. |
| Targets.PairErrorExactly | prototypes/backend-control-plane/pkg/translator/envoy/httproute.go:126-162 | What a rule and match report: UnsupportedValue for a match that is rejected; nothing if the rule redirects; else the error of its first reference that has one, or UnsupportedValue if none gets traffic. |
| Targets.ConditionReasonExactly | prototypes/backend-control-plane/pkg/translator/envoy/httproute.go:126-206 | The ResolvedRefs condition of a route has the reason of the last rule and match that fail, in list order, and is True if none does. |
| Names.ClusterNamesCoincide | prototypes/backend-control-plane/pkg/constants/envoy.go:18-19 | Two cluster names coincide if and only if the ports do and so do the texts "namespace-backend". |
| Names.ClusterNameInjective | prototypes/backend-control-plane/pkg/constants/envoy.go:18-19 | Within a namespace the cluster name determines backend and port. |
| Names.ClusterNamesCanCollide | prototypes/backend-control-plane/pkg/constants/envoy.go:18-19 | Across namespaces it does not ("a-b"/"c" and "a"/"b-c"), nor with a negative port number. |
| Names.PortPrintedAlike | prototypes/backend-control-plane/pkg/translator/envoy/httproute.go:447-486 | A weighted cluster, which prints its port as int32, is spelled like its cluster, which prints it as uint32, if and only if the port is below 2^31. |
| Names.RouteNamesCoincide | prototypes/backend-control-plane/pkg/constants/envoy.go:13-15 | Two route names coincide if and only if rule and match index do and so do the texts "namespace-httproute". |
| Names.RouteNameInjective | prototypes/backend-control-plane/pkg/constants/envoy.go:13-15 | Route names tell rule and match index apart. |
| Names.VHostNameInjective | prototypes/backend-control-plane/pkg/constants/envoy.go:16-17 | On one Gateway port, virtual-host names tell domains apart. |
| RouteTranslation.TranslateFilters | prototypes/backend-control-plane/pkg/translator/envoy/httproute.go:97-124 | The loop computes RouteTranslation.FiltersOf, the filters up to and including the first redirect. What they do is told by HeaderModifiers.HeadersExactly, Rewrites.ForwardedRightExactly, FullPathForwarded, PathKept and RedirectLocationExactly. |
| RouteTranslation.FirstRedirectDecides | prototypes/backend-control-plane/pkg/translator/envoy/httproute.go:99-106 | The first redirect of a rule is its redirect, and no filter after it has any effect. |
| RouteTranslation.LastRewriteDecides | prototypes/backend-control-plane/pkg/translator/envoy/httproute.go:115-116 | Without a redirect the last rewrite of a rule decides, even if it rewrites nothing. |
| RouteTranslation.RedirectStatusExactly | prototypes/backend-control-plane/pkg/translator/envoy/httproute.go:246-251 | The client gets the status a redirect filter asks for if and only if the filter leaves it unset: the code takes the HTTP status for the number of an Envoy enum value. |
| HeaderModifiers.HeadersExactly | prototypes/backend-control-plane/pkg/translator/envoy/httproute.go:97-145 | Header by header, in every compiled route: Envoy gives a request header, whatever it was before, what the rule's request modifiers before its first redirect ask for one after the other (set replaces, add appends, remove deletes), if and only if removing comes first, that is, no modifier gives the header up to one that removes it, or a later one sets it anew; the same of response headers and response modifiers. |
| HeaderModifiers.RemovedHeaderComesBack | prototypes/backend-control-plane/pkg/translator/envoy/httproute.go:107-114 | It can fail: a header that one modifier sets and the next removes is there again, since Envoy removes before it adds. |
| RouteTranslation.BuildRoutesForRule | prototypes/backend-control-plane/pkg/translator/envoy/httproute.go:126-191 | The branches compute RouteTranslation.Compiled. Which requests the route takes is told by RouteProperties.CompiledServes, its name and number by ExpansionAccounted, its headers, path, host and redirect by HeaderModifiers and Rewrites, where it forwards to by Destinations.ReferenceBehind, and its failure by Targets.PairErrorExactly. |
| RouteTranslation.TranslateHTTPRouteToEnvoyRoutes | prototypes/backend-control-plane/pkg/translator/envoy/httproute.go:79-206 | The routes are a precedence sort of what all rules and matches yield; backends and condition are accumulated in order. |
| RouteProperties.RoutingPreserved | prototypes/backend-control-plane/pkg/translator/envoy/httproute.go:79-206 | For every HTTPRoute and every request that first-match over the emitted list answers, it picks a route compiled from a rule and match that serves the request, and every other serving one that outranks it is one that a prefix rewrite, a method or an empty prefix inverts. |
| RouteProperties.UnservedExactly | prototypes/backend-control-plane/pkg/translator/envoy/httproute.go:79-206 | First-match over the emitted list picks nothing for a request if and only if no rule and match of the HTTPRoute serves it. |
| RouteProperties.OutranksIsBefore | prototypes/backend-control-plane/pkg/translator/envoy/httproute.go:743-790 | On pairs of one or two HTTPRoutes that take a common request the comparator follows the Gateway API's precedence (exact path, characters of the prefix, method, headers, query parameters) if and only if none of three conditions on rules and matches holds: lengths that a prefix rewrite or an ignored trailing "/" changes, a method, or an empty prefix. |
| RouteProperties.PrecedesExactly | prototypes/backend-control-plane/pkg/translator/envoy/httproute.go:743-790 | The order of any two compiled pairs, of one or two HTTPRoutes, told from their rules and matches alone. |
| RouteProperties.PlainPairs | prototypes/backend-control-plane/pkg/translator/envoy/httproute.go:79-206 | For matches of the faithful form whose rule rewrites no prefix, serving is what the API calls matching, and only an ignored trailing "/" or an empty prefix, which the API's validation refuses, can invert precedence. |
| RouteProperties.SwitchedExactly | prototypes/backend-control-plane/pkg/translator/envoy/httproute.go:173-183 | The emitted matcher differs from the translation of the match if and only if a rule that forwards rewrites the prefix of a match on a prefix other than "" and "/"; it is then the plain prefix with one "/" appended. |
| RouteProperties.RewriteInversionHappens | prototypes/backend-control-plane/pkg/translator/envoy/httproute.go:179-183 | The inversion happens: of two rules on one prefix, the one with a header match ranks higher under the API but is put after the one that rewrites the prefix. |
| RouteProperties.MethodInversionHappens | prototypes/backend-control-plane/pkg/translator/envoy/httproute.go:743-790 | So does this one: of two matches on one prefix, that with a method ranks higher but is put after that with a header. |
| RouteProperties.SlashInversionHappens | prototypes/backend-control-plane/pkg/translator/envoy/httproute.go:743-790 | And this: "/foo/" has more characters than "/foo" but is put after "/foo" with a header. |
| RouteProperties.CompiledServes | prototypes/backend-control-plane/pkg/translator/envoy/httproute.go:126-191 | The matcher compiled from a rule and match accepts exactly what the match takes, less the path equal to the prefix if a prefix rewrite switched the matcher. |
| RouteProperties.PairsOfRule | prototypes/backend-control-plane/pkg/translator/envoy/httproute.go:194-200 | The pairs of a rule are its matches in order; a rule without matches has one, which takes every request whose path begins with "/". |
| Rewrites.HostnameRewriteHonouredExactly | prototypes/backend-control-plane/pkg/translator/envoy/httproute.go:97-191 | Of a rule that forwards, the hostname of the last rewrite filter reaches the emitted action if and only if this filter also rewrites the path. |
| Rewrites.RewriteRightExactly | prototypes/backend-control-plane/pkg/translator/envoy/httproute.go:173-183 | Every path below the prefix is rewritten to replacement plus rest, with no separator doubled or dropped, if and only if the replacement ends in "/" (or nothing is to be done). |
| Rewrites.ForwardedRightExactly | prototypes/backend-control-plane/pkg/translator/envoy/httproute.go:163-185 | Of compiled routes: when the last rewrite of a rule that forwards replaces the prefix, the route takes every path below the prefix of its match and forwards it as replacement plus rest, if and only if the replacement ends in "/" (or nothing is to be done). |
| Rewrites.FullPathForwarded | prototypes/backend-control-plane/pkg/translator/envoy/httproute.go:265-280 | When it replaces the full path, the route forwards every path as this one. |
| Rewrites.PathKept | prototypes/backend-control-plane/pkg/translator/envoy/httproute.go:163-185 | Without rewrites, path and host are forwarded as they are. |
| Rewrites.RedirectRightExactly | prototypes/backend-control-plane/pkg/translator/envoy/httproute.go:208-253 | Every path below the prefix is redirected to replacement plus rest, with no separator doubled or dropped, if and only if the replacement is not empty and does not end in "/"; for the prefix "/", if and only if it is empty or does. |
| Rewrites.RedirectLocationExactly | prototypes/backend-control-plane/pkg/translator/envoy/httproute.go:208-253 | The first redirect of a rule, unless it replaces the prefix, sends every request to the scheme, host, path and port that its filter asks for, if and only if the filter names no empty host and no port that is not positive. |
| Rewrites.UnresolvedAnswers500 | prototypes/backend-control-plane/pkg/translator/envoy/httproute.go:152-162 | A rule that forwards, and whose references do not resolve to any traffic, answers 500. |
| RouteProperties.ExpansionAccounted | prototypes/backend-control-plane/pkg/translator/envoy/httproute.go:86-205 | The number of emitted routes is the sum over rules of max(1, matches) less the rejected matches; names are pairwise distinct; the condition is True if and only if no match is rejected and the references of every rule without a redirect resolve to traffic. |
| RouteProperties.RouteOrigin | prototypes/backend-control-plane/pkg/translator/envoy/httproute.go:88-200 | Every emitted route was compiled from a rule and match. |
| RouteProperties.PairIncluded | prototypes/backend-control-plane/pkg/translator/envoy/httproute.go:88-200 | Everything a rule and match yields is in the result; a failure anywhere leaves the condition False. |
| RouteProperties.RoutesForwardToClusters | prototypes/backend-control-plane/pkg/translator/envoy/httproute.go:485-488 | When port numbers fit an int32, every cluster a route forwards to is the cluster of a port of a returned backend. |
| Hostnames.GetIntersectingHostnames | prototypes/backend-control-plane/pkg/translator/envoy/routes.go:139-182 | The domains of an attachment, as a multiset: the route's list, the listener's hostname, or the set of most specific names of the permitted pairs. |
| Hostnames.PermittedExactly | prototypes/backend-control-plane/pkg/translator/envoy/routes.go:162-178 | A domain results if and only if some route hostname is permitted and this is the more specific of the pair. |
| Hostnames.IsAllowedByHostname | prototypes/backend-control-plane/pkg/translator/envoy/routes.go:100-134 | A route is allowed if and only if the listener has no hostname, the route has none, or some route hostname is a subset of the listener's. |
| Hostnames.AcceptanceIsExposure | prototypes/backend-control-plane/pkg/translator/envoy/routes.go:100-182 | A listener accepts a route's hostnames if and only if some domain is left to serve them on. |
| Hostnames.OnePairMeaning | prototypes/backend-control-plane/pkg/translator/envoy/routes.go:186-225 | Host by host, what one permitted pair covers is the intersection of the two, but for the two exceptions below. |
| Hostnames.IntersectionMeaning | prototypes/backend-control-plane/pkg/translator/envoy/routes.go:139-225 | For every host: the domains cover it if and only if listener and route cover it by a hostname that is not strictly broader than the listener's wildcard, or it is the listener's name let in by "*." plus that name. |
| Hostnames.IntersectionExactly | prototypes/backend-control-plane/pkg/translator/envoy/routes.go:139-225 | The domains denote exactly the intersection of listener and route if and only if neither exception applies, and the exceptions are checkable on the hostnames. |
| Attachment.IsAllowedByListener | prototypes/backend-control-plane/pkg/translator/envoy/routes.go:17-96 | The loop computes Attachment.PolicyAllows. Whom that admits is stated by ListenerPolicy, policy by policy. |
| ListenerPolicy.OnlyFitting | prototypes/backend-control-plane/pkg/translator/envoy/routes.go:80-95 | Whatever its policy, a listener takes no route unless a reference names the Gateway and selects the listener, the list of kinds is empty or has HTTPRoute (of the Gateway API group, the empty one or none), and hostnames allow. |
| ListenerPolicy.SameNamespaceExactly | prototypes/backend-control-plane/pkg/translator/envoy/routes.go:21-37 | Without a policy, without a from, or with Same, a route attaches if and only if it fits so and is in the namespace of the Gateway. |
| ListenerPolicy.AllNamespacesExactly | prototypes/backend-control-plane/pkg/translator/envoy/routes.go:34-35 | With All, a route attaches if and only if it fits so. |
| ListenerPolicy.AllIgnoresNamespace | prototypes/backend-control-plane/pkg/translator/envoy/routes.go:34-35 | So a route whose references say which namespace they mean attaches from every namespace or from none. |
| ListenerPolicy.SelectedNamespacesExactly | prototypes/backend-control-plane/pkg/translator/envoy/routes.go:38-58 | With Selector, a route attaches if and only if it fits so and its namespace is known and has every required label; a selector that is missing or does not parse admits nobody. |
| ListenerPolicy.UnknownPolicyDenies | prototypes/backend-control-plane/pkg/translator/envoy/routes.go:59-61 | An unknown policy admits nobody. |
| Attachment.ListHTTPRoutesForGateway | prototypes/backend-control-plane/pkg/translator/envoy/translator.go:130-152 | Exactly the routes with a reference to this Gateway, in lister order, each once. |
| Attachment.ValidateParentRef | prototypes/backend-control-plane/pkg/translator/envoy/translator.go:186-243 | The status of one reference, with the rejection reason of the last listener it selects, and the listeners that take it. |
| Attachment.ValidateHTTPRoute | prototypes/backend-control-plane/pkg/translator/envoy/translator.go:158-252 | One status per reference to this Gateway, and exactly the names of the accepting listeners, each once. |
| Attachment.GatherRoutesAndParentStatuses | prototypes/backend-control-plane/pkg/translator/envoy/translator.go:94-128 | The index maps every listener name to exactly the attached routes, in order; statuses are recorded for exactly the routes that refer to the Gateway. |
| Attachment.AddToIndex | prototypes/backend-control-plane/pkg/translator/envoy/translator.go:113-124 | One route joins the list of every accepting listener, once per name, and no other list changes. |
| Attachment.AttachedExactly | prototypes/backend-control-plane/pkg/translator/envoy/translator.go:94-128 | A route is in a listener's list if and only if it is in the lister and one of its references names this Gateway, selects the listener by section and port, and is allowed by namespace, kind and hostname. |
| Attachment.AttachedOnce | prototypes/backend-control-plane/pkg/translator/envoy/translator.go:117-123 | No route is listed twice under one listener. |
| Attachment.AcceptedExactly | prototypes/backend-control-plane/pkg/translator/envoy/translator.go:187-243 | A reference is reported Accepted=True, for the reason Accepted, if and only if some listener takes it; otherwise Accepted=False with a reason. |
| Attachment.RejectionReasonExactly | prototypes/backend-control-plane/pkg/translator/envoy/translator.go:187-207 | The reason of a rejected reference is NoMatchingParent if and only if it selects no listener; otherwise the last listener it selects gives the reason: NotAllowedByListeners if its policy denies the route, and if not, NoMatchingListenerHostname, and its hostname does. |
| Attachment.StatusesTellAttachment | prototypes/backend-control-plane/pkg/translator/envoy/translator.go:94-128 | A route attaches to some listener if and only if one of its reported statuses is Accepted. |
| ListenerConflicts.SetListenerCondition | prototypes/backend-control-plane/pkg/translator/envoy/listener.go:15-28 | Setting one listener's Conflicted condition leaves those of all others alone. |
| ListenerConflicts.GroupByPort | prototypes/backend-control-plane/pkg/translator/envoy/listener.go:39-43 | Listeners grouped by port, in order; no empty group. |
| ListenerConflicts.CheckPort | prototypes/backend-control-plane/pkg/translator/envoy/listener.go:45-94 | The check of one port sets Conflicted on exactly the names it finds, with the protocol or the hostname reason, and changes nothing else. |
| ListenerConflicts.CheckHostnames | prototypes/backend-control-plane/pkg/translator/envoy/listener.go:70-93 | The loop over seen hostnames reports exactly the listeners whose hostname occurs at least twice on the port. |
| ListenerConflicts.PortCheckExactly | prototypes/backend-control-plane/pkg/translator/envoy/listener.go:45-94 | On one port the check finds exactly the listeners that are in conflict by the definition. |
| ListenerConflicts.ValidateListenerConflicts | prototypes/backend-control-plane/pkg/translator/envoy/listener.go:32-94 | A name ends Conflicted=True if and only if a listener of that name has a port that mixes TCP/UDP with HTTP/HTTPS/TLS, or shares port and hostname (unset equals empty) with another such listener; the reason is that of such a listener; whatever the order of the ports. |
| ListenerConflicts.ConflictsIgnoreOrder | prototypes/backend-control-plane/pkg/translator/envoy/listener.go:32-94 | The names in conflict do not depend on the order of the listeners. |
| Clusters.BuildClustersFromBackends | prototypes/backend-control-plane/pkg/translator/envoy/helpers.go:34-92 | Clusters, one per port of every backend and in order, exist if and only if every backend has ports, DNS backends have a hostname, and TLS references are good. Where such a cluster points is told by Targets.ClusterTarget. |
| Clusters.ClusterTable.Put | prototypes/backend-control-plane/pkg/translator/envoy/translator.go:404-406 | Writing clusters into the shared map in order, the last of a name replacing the others. |
| Clusters.LastWriteWins | prototypes/backend-control-plane/pkg/translator/envoy/translator.go:404-406 | A name is in the map if and only if some cluster has it, and it maps to the last one written. |
| Clusters.TableGrows | prototypes/backend-control-plane/pkg/translator/envoy/translator.go:382-406 | Writing the clusters of one route after another gives the map of all backends together. |
| Clusters.FlattenSlice | prototypes/backend-control-plane/pkg/translator/envoy/helpers.go:388-419 | The addresses of the endpoints of a slice, in order, skipping those that say they are not ready. |
| Clusters.GenerateEDSFromService | prototypes/backend-control-plane/pkg/translator/envoy/helpers.go:371-432 | The assignment named after namespace, service and port, with the endpoints of all slices. |
| Clusters.OfferedExactly | prototypes/backend-control-plane/pkg/translator/envoy/helpers.go:386-420 | An endpoint is offered if and only if a usable endpoint of some slice has its address; it carries the service port, and is healthy if and only if it says it is ready. |
| Clusters.BuildEDSResources | prototypes/backend-control-plane/pkg/translator/envoy/translator.go:255-285 | Assignments, one per port of every EDS backend and in order, exist if and only if every EDS backend has ports. |
| Clusters.AssignmentsExactly | prototypes/backend-control-plane/pkg/translator/envoy/translator.go:255-285 | Endpoints are assigned to exactly the names of the ports of the EDS backends. |
| Clusters.ServiceEndpointsExactly | prototypes/backend-control-plane/pkg/translator/envoy/translator.go:274-281 | The slices consulted for a backend are those of the Service its reference forwards to, whatever slices there are, if and only if the reference is to a Backend that is called like its Service. |
| Clusters.ServiceEndpointsMissed | prototypes/backend-control-plane/pkg/translator/envoy/translator.go:274-281 | Otherwise slices that are labelled with the Service's own name are not offered: however usable their endpoints, the assignment is empty. |
| Clusters.EdsClosureExactly | prototypes/backend-control-plane/pkg/translator/envoy/translator.go:309-345 | The names that EDS clusters ask endpoints for are the names given, if and only if the last port of every name that an EDS backend needs belongs to an EDS backend. |
| Clusters.EdsClosed | prototypes/backend-control-plane/pkg/translator/envoy/helpers.go:62-74 | In particular when no DNS backend and EDS backend share a cluster name. |
| Clusters.NamesCanBeShared | prototypes/backend-control-plane/pkg/translator/envoy/httproute.go:61-70 | Cluster names are shared: an FQDN backend called "synsvc-x" takes the cluster name of Service "x". |
| VirtualHosts.AddRoutes | prototypes/backend-control-plane/pkg/translator/envoy/translator.go:411-423 | Appending routes to the virtual host of every listed domain, once per occurrence, creates exactly the hosts that are missing. |
| VirtualHosts.Attach | prototypes/backend-control-plane/pkg/translator/envoy/translator.go:382-424 | One more attachment keeps the virtual hosts exactly those the attachments call for. |
| VirtualHosts.SerialiseHosts | prototypes/backend-control-plane/pkg/translator/envoy/translator.go:429-440 | Every virtual host is sorted in place and listed once; the shared map keeps the same hosts and routes. |
| VirtualHosts.ListedServesExactly | prototypes/backend-control-plane/pkg/translator/envoy/translator.go:409-440 | The serialised configuration has exactly one virtual host per served domain, holding, as a multiset and in precedence order, the routes of every attachment once per occurrence of the domain. |
| VirtualHosts.HostRouteOrigin | prototypes/backend-control-plane/pkg/translator/envoy/translator.go:409-424 | Every route of a virtual host was compiled from an attachment the domain belongs to. |
| VirtualHosts.AttachedIsServed | prototypes/backend-control-plane/pkg/translator/envoy/translator.go:409-424 | An attachment with at least one Envoy route is served on some virtual host, with all its routes. |
| VirtualHosts.ServedByMaximalRoute | prototypes/backend-control-plane/pkg/translator/envoy/translator.go:427-433 | On a virtual host the first route that accepts a request has maximal precedence among those of all attachments to the domain. |
| RouteStatuses.StatusTable.Merge | prototypes/backend-control-plane/pkg/translator/envoy/translator.go:389-397 | Merging a condition into the recorded statuses of one route changes the accepted ones and no other entry of the table. |
| RouteStatuses.MergedAt | prototypes/backend-control-plane/pkg/translator/envoy/translator.go:382-397 | However many listeners translate a route, its condition is merged once, and the statuses of all other routes stay. |
| PortBuild.AddAttachment | prototypes/backend-control-plane/pkg/translator/envoy/translator.go:382-424 | One route on one listener: fails if and only if a backend is unbuildable, otherwise virtual hosts, backends and the shared maps of clusters and route statuses hold exactly what the attachments call for. |
| PortBuild.BuildFilterChain | prototypes/backend-control-plane/pkg/translator/envoy/helpers.go:273-354 | The filter chain of a listener carries the virtual hosts as they are at that moment, and server names only for HTTPS. |
| PortBuild.BuildEnvoyListenerForPort | prototypes/backend-control-plane/pkg/translator/envoy/translator.go:355-490 | Succeeds if and only if all listeners are valid and all attached routes buildable; then the chain of the k-th listener serves exactly the attachments to listeners 1 to k, and attached-route counts are right. |
| XdsBuild.BuildAllPorts | prototypes/backend-control-plane/pkg/translator/envoy/translator.go:309-322 | Ports are built in any order, each once, into one shared cluster map. |
| XdsBuild.BuildXDSFromGatewayAndRoutes | prototypes/backend-control-plane/pkg/translator/envoy/translator.go:288-352 | Succeeds if and only if the Gateway is buildable, and says which half failed; listeners are pairwise on different ports, clusters are those of the shared map, endpoints those of all backends, listener statuses in listener order, and route statuses completed. |
| Witnesses.ConflictPanics | prototypes/backend-control-plane/pkg/translator/envoy/translator.go:373-376 | Two HTTP listeners that share port and hostname make the build of a Gateway without routes panic: no other outcome fits. |
| XdsProperties.EmittedRouteOrigin | prototypes/backend-control-plane/pkg/translator/envoy/translator.go:371-440 | Every route of a filter chain was compiled from a route linked to the chain's listener or to one before it on the port, on a domain of that link. |
| XdsProperties.ReferencesResolve | prototypes/backend-control-plane/pkg/translator/envoy/translator.go:288-352 | Referential integrity: when port numbers fit an int32, every cluster that any emitted route forwards to is an emitted cluster. |
| XdsProperties.ServerNamesDistinctExactly | prototypes/backend-control-plane/pkg/translator/envoy/helpers.go:328-340 | The chains of a port of a valid Gateway ask for pairwise different server names if and only if at most one of its listeners is nameless (HTTP, or HTTPS without a hostname). |
| Witnesses.NamelessChainsClash | prototypes/backend-control-plane/pkg/translator/envoy/helpers.go:328-340 | Two HTTP listeners of one port with different hostnames are valid and can be built, and the two chains of every build ask for the same server names, namely none. |
| Consistency.BuildConsistent | prototypes/backend-control-plane/pkg/xds/envoy/controlplane.go:169-172 | The snapshot passes the endpoint half of the consistency check if and only if, along the ports in the order they were visited, the last backend of every name that an EDS backend needs is EDS; so it does when no DNS and EDS backend share a name. |
| Consistency.ConsistentInEveryOrder | prototypes/backend-control-plane/pkg/translator/envoy/translator.go:309-345 | No order of the ports can fail this if and only if, on every port, the last backend of each needed name that occurs there is EDS; then every build of the Gateway is consistent. |
| Consistency.ClashRefused | prototypes/backend-control-plane/pkg/translator/envoy/translator.go:288-352 | The check can fail: a Gateway with one listener and one HTTPRoute, to a Service "x" and then to an FQDN Backend "synsvc-x" on the same port, is built, and none of its builds is consistent. |
| XdsProperties.RouteBuildableExactly | prototypes/backend-control-plane/pkg/translator/envoy/helpers.go:38-40 | A route can be built if and only if every reference of every rule that forwards has a buildable backend, be its weight zero or not. |
| XdsProperties.IdleServiceBlocksBuild | prototypes/backend-control-plane/pkg/translator/envoy/httproute.go:618-624 | So a reference of weight zero, in a rule that forwards, to a Service with named ports only makes the build of every Gateway fail to which its route is linked. |
| ControlPlane.SnapshotServer.PushXDS | prototypes/backend-control-plane/pkg/xds/envoy/controlplane.go:154-185 | A push draws the next version even if the snapshot is refused; a consistent one replaces the node's entry and no other; an empty node changes nothing. |
| ControlPlane.VersionsTellApart | prototypes/backend-control-plane/pkg/xds/envoy/controlplane.go:159-161 | Until the counter wraps, a version is spelled differently from every earlier one. |
| ControlPlane.PushIsDrawAndInstall | prototypes/backend-control-plane/pkg/xds/envoy/controlplane.go:154-177 | An accepted push does to counter and cache what the two interleaved steps of the reconcile loop do to its counter and installs, when no other step comes between. |
| ControlPlane.RefusedPushIsDrawAndFail | prototypes/backend-control-plane/pkg/xds/envoy/controlplane.go:169-172 | A refused push is a draw after which the worker fails: the version is used up, nothing is installed. |
| Reconcile.QueueStep | prototypes/backend-control-plane/pkg/controllers/controller.go:208-229 | Every step keeps the queue's contract: a waiting key waits once, a held key has one holder. |
| Reconcile.InstallsMonotone | prototypes/backend-control-plane/pkg/xds/envoy/controlplane.go:159-177 | In every interleaving of any number of workers, versions installed for a node strictly increase and none is installed twice, although drawing and installing are separate steps. |
| Reconcile.MonotoneExactly | prototypes/backend-control-plane/pkg/deployer/envoy/deployer.go:102-109 | This holds for all runs of two or more workers if and only if no two Gateways share a node ID. |
| Reconcile.SharedNodeGoesBack | prototypes/backend-control-plane/pkg/controllers/controller.go:281-283 | Two Gateways with one truncated digest can be installed against version order. |
| Reconcile.KeyStep | prototypes/backend-control-plane/pkg/controllers/controller.go:208-302 | Every step that leaves alone what there is to sync for a key (the cached version, or the clean-up of a Gateway that is gone) keeps this either still to be done or recorded. |
| Reconcile.NoUpdateLost | prototypes/backend-control-plane/pkg/controllers/gateway.go:10-51 | In every reachable state, a cached Gateway of our class that is not the version synced last has an undelivered notification, waits in the queue, is in backoff, or is held by a worker. |
| Reconcile.NoDeletionLost | prototypes/backend-control-plane/pkg/controllers/gateway.go:24-29 | In every reachable state after a Gateway of our class was deleted under the eyes of the watch, and as long as it does not come back, it waits to be cleaned up in the same sense, unless nothing is recorded of it. |
| Reconcile.OtherClassLeftAlone | prototypes/backend-control-plane/pkg/controllers/gateway.go:40-46 | A Gateway that is never of our class, and that no HTTPRoute event asks for, is never queued, held or recorded, in any run. |
| Convergence.NothingLeftBehind | prototypes/backend-control-plane/pkg/controllers/controller.go:243-247 | When nothing is left to do for a key, it is recorded as synced only if it is a cached Gateway of our class: provided that none of its deletions was missed, and that it never was of another class, or never of ours and in no route. |
| Convergence.LeavingIsMissed | prototypes/backend-control-plane/pkg/controllers/gateway.go:34-46 | Otherwise it can stay: a Gateway that has been synced and is then deleted while the watch is down (the handler does not take a tombstone for a Gateway), or that changes its class, is not cleaned up, and nothing is left to do. |
| Convergence.OtherClassServed | prototypes/backend-control-plane/pkg/controllers/httproute.go:27-62 | And a Gateway of another class is served once an HTTPRoute event asks for it, since the class is looked at only in Gateway events. |
| Convergence.SettledGatewayIsServed | prototypes/backend-control-plane/pkg/controllers/controller.go:208-302 | In every reachable state, a cached Gateway of our class for which nothing is left to do has, as the snapshot installed last on its node, one built from the cached version, when no two Gateways share a node. |
| Convergence.ConvergesExactly | prototypes/backend-control-plane/pkg/deployer/envoy/deployer.go:102-109 | In all runs that come to rest all Gateways of our class are served in their cached version, if and only if no two Gateways share a node ID. |
| Convergence.SharedNodeIsOverwritten | prototypes/backend-control-plane/pkg/deployer/envoy/deployer.go:102-109 | Two Gateways with one truncated digest, synced one after the other, leave the first with the snapshot of the second, and nothing is left to do. |
| Manifests.SplitYAMLDocument | prototypes/backend-control-plane/pkg/deployer/envoy/renderer.go:154-189 | The trimmed non-empty parts between separator lines, in order. |
| Manifests.KeptAreTrimmed | prototypes/backend-control-plane/pkg/deployer/envoy/renderer.go:182-187 | Whatever the text, the documents that come out are trimmed and not empty. |
| Manifests.SplitUndoesJoin | prototypes/backend-control-plane/pkg/deployer/envoy/renderer.go:154-189 | Documents without separator lines, joined by "\n---\n", come back in order, each trimmed, less the blank ones. |
| Manifests.TrimmedComeBack | prototypes/backend-control-plane/pkg/deployer/envoy/renderer.go:182-187 | Trimmed documents that are not empty come back as they are. |
| Manifests.PrintableComeBack | prototypes/backend-control-plane/pkg/deployer/envoy/renderer.go:154-189 | So documents that begin and end with printable ASCII characters and have no separator lines come back as they are. |
| Manifests.PartsAreSeparated | prototypes/backend-control-plane/pkg/deployer/envoy/renderer.go:154-181 | Whatever the text, no part has a complete line that starts with "---", whatever follows the dashes: every such line separates. |
| Manifests.Indent | prototypes/backend-control-plane/pkg/deployer/envoy/renderer.go:91-100 | Every non-empty line moves right; empty lines stay. |
| Manifests.IndentedLineByLine | prototypes/backend-control-plane/pkg/deployer/envoy/renderer.go:91-100 | Line by line: empty lines stay empty, and every other line gets that many blanks in front. |
| Manifests.IndentIsReversible | prototypes/backend-control-plane/pkg/deployer/envoy/renderer.go:91-100 | Moving the lines back gives the text back. |
| Manifests.IndentedNoSeparator | prototypes/backend-control-plane/pkg/deployer/envoy/renderer.go:91-100 | Text indented by at least one space never contains a separator line, whatever the text. |
| Manifests.EmbeddedTextIsSafe | prototypes/backend-control-plane/pkg/deployer/envoy/renderer.go:71-85 | So a document that embeds any indented text, wherever it stands among others, splits off in one piece, trimmed. |
| Manifests.SanitizeListenerName | prototypes/backend-control-plane/pkg/deployer/envoy/renderer.go:142-151 | Service port names have no dots and at most 63 characters; ServicePortsDescribe says which. |
| Manifests.ExtractServicePorts | prototypes/backend-control-plane/pkg/deployer/envoy/renderer.go:119-140 | One service port for the first listener on every port, in order. |
| Manifests.ServicePortsExactly | prototypes/backend-control-plane/pkg/deployer/envoy/renderer.go:119-140 | The ports are exactly those of the listeners, pairwise distinct. |
| Manifests.ServicePortsDescribe | prototypes/backend-control-plane/pkg/deployer/envoy/renderer.go:119-151 | A service port is listed if and only if it is that of the first listener on its port, with the lower-case protocol, and the name cut to 63 characters with dashes for dots, or protocol and place if the name is empty. |
| Manifests.ServicePortNamesCanCollide | prototypes/backend-control-plane/pkg/deployer/envoy/renderer.go:145-151 | Names may still collide: "a.b" and "a-b" give one name. |

## Left out

- Sorting.SortSlice: the library's algorithm is replaced by an insertion sort; callers see only "sorted permutation".
- Manifests.SplitYAMLDocument: strings are sequences of characters, not bytes, so lengths and cuts count characters; listener names are ASCII.
- ListenerConflicts.ValidateListenerConflicts: stops before the certificate references of `prototypes/backend-control-plane/pkg/translator/envoy/listener.go:96-169`, which depend on Secret contents.
- PortBuild.BuildEnvoyListenerForPort: of a listener's own status only the name and the attached-route count are modelled, not its conditions and supported kinds.
- RouteProperties.OutranksIsBefore: the Gateway API leaves the rank of regular expression paths open, so they are not compared with prefixes; the length of a prefix is taken as the API words it, in characters, with a trailing "/" that matching ignores.
- Ties.FirstRuleWinsExactly: list order within one HTTPRoute. Between HTTPRoutes `HostAnswers.HostAnswerFixedExactly` says when the answer is fixed; the API's order of ties there (creation time, then name) is not modelled, as the code looks at neither.
- Destinations.DestinationExactly: compares clusters; endpoints are the matter of `Destinations.EndpointsExactly`. Which of two assignments of one name is used is up to the snapshot library.
- EndToEnd.AnsweredByAttachedPair: takes the filter chain as given; `ServerNames` says which one a TLS connection gets. Request hosts and server names are in lower case and without a port, request paths are not empty, and hostnames are valid as the API's validation has them.
- Consistency.BuildConsistent: the check of route references (RDS) is trivial here, because every listener carries its routes inline.
- HeaderModifiers.HeadersExactly: takes one modifier to set, add and remove in this order; the API says nothing of a header that one modifier both gives and removes.
- Rewrites.FullPathForwarded: takes the substitute text literally, although Envoy reads a backslash in it as a reference to a group.
- Reconcile.NoUpdateLost: about Gateway updates; HTTPRoute events enqueue only the new object's parents and appear as arbitrary additions of a key.
- Convergence.SettledGatewayIsServed: about the Gateway's own version; which HTTPRoutes and backends the caches held when a snapshot was built is not tracked.
- Reconcile.InstallsMonotone: runs of fewer than 2^64 steps, so that the counter does not wrap.
- TLS: contexts, certificates, Secrets and PEM decoding are foreign data; a backend port's TLS is absent, broken, or usable with a server name.
- Label selectors are parsed label sets; matchExpressions are not modelled.
- GRPCRoutes: the code lists no such routes.
- A ReplaceFullPath or ReplacePrefixMatch redirect without its value, and a backend reference without a kind, dereference nil in the code; the model takes a redirect without path, and always has a kind.
- Errors of listers other than "not found", messages, generations and timestamps of conditions.
- The gRPC server, protobuf serialisation (a filter chain is an immutable copy of the virtual hosts), logging, Kubernetes client calls, server-side apply and `DeleteGatewayInfra`.
- Templates, bootstrap rendering and the rest of the deployer: text without logic of its own.
- Generated code, CRDs, scripts and the website.
