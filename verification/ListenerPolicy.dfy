/** Who may attach to a listener: what each namespace policy and kind list of the Gateway API admits. */
module ListenerPolicy {
  import opened Text
  import opened GatewayApi
  import opened Hostnames
  import opened Attachment
  import opened XdsBuild

  /** Some reference of the route names the Gateway and selects the listener, by section and port if it gives them. */
  predicate AsksFor(gw: Gateway, hr: HTTPRoute, l: Listener) {
    exists ref :: ref in hr.parentRefs && AsksBy(gw, hr, ref, l)
  }

  predicate AsksBy(gw: Gateway, hr: HTTPRoute, ref: ParentReference, l: Listener) {
    && ref.name == gw.name && (ref.namespace == Some(gw.namespace) || (ref.namespace.None? && hr.namespace == gw.namespace))
    && (ref.sectionName.None? || ref.sectionName == Some(l.name)) && (ref.port.None? || ref.port == Some(l.port))
  }

  /** HTTPRoute, of the Gateway API group, of the empty one, or of none. */
  predicate IsHTTPRoute(k: RouteGroupKind) {
    k.kind == "HTTPRoute" && (k.group.None? || k.group == Some("") || k.group == Some("gateway.networking.k8s.io"))
  }

  /** The listener's list of kinds is empty or has HTTPRoute. */
  predicate HasKind(l: Listener) {
    l.allowedRoutes.Some? && l.allowedRoutes.value.kinds != [] ==>
      exists k :: k in l.allowedRoutes.value.kinds && IsHTTPRoute(k)
  }

  /** The listener says from which namespaces, and this is what it says. */
  predicate From(l: Listener, from: FromNamespaces) {
    && l.allowedRoutes.Some? && l.allowedRoutes.value.namespaces.Some?
    && l.allowedRoutes.value.namespaces.value.from == Some(from)
  }

  /** The listener does not say from which namespaces. */
  predicate FromUnset(l: Listener) {
    l.allowedRoutes.None? || l.allowedRoutes.value.namespaces.None? || l.allowedRoutes.value.namespaces.value.from.None?
  }

  /** The route would attach if it were for references, hostnames and kinds alone. */
  predicate Fits(gw: Gateway, hr: HTTPRoute, l: Listener) {
    AsksFor(gw, hr, l) && HasKind(l) && HostnameAllows(l, hr.hostnames)
  }

  lemma AttachesParts(c: Cluster, gw: Gateway, hr: HTTPRoute, l: Listener)
    requires NamesDetermine(gw) && l in gw.listeners
    ensures Attaches(c, gw, hr, l.name) <==>
            AsksFor(gw, hr, l) && PolicyAllows(c, gw, l, hr.namespace) && HostnameAllows(l, hr.hostnames)
  {
    forall ref ensures TargetsGateway(gw, hr, ref) && SelectsListener(ref, l) <==> AsksBy(gw, hr, ref, l) {
    }
    if AsksFor(gw, hr, l) && PolicyAllows(c, gw, l, hr.namespace) && HostnameAllows(l, hr.hostnames) {
      var ref :| ref in hr.parentRefs && TargetsGateway(gw, hr, ref) && SelectsListener(ref, l);
      assert Accepts(c, gw, hr, ref, l);
    }
  }

  lemma KindsExactly(l: Listener)
    requires l.allowedRoutes.Some?
    ensures HasKind(l) <==>
            l.allowedRoutes.value.kinds == [] || exists k :: k in l.allowedRoutes.value.kinds && KindMatches(k)
  {
    forall k { KindReads(k); }
  }

  lemma KindReads(k: RouteGroupKind)
    ensures KindMatches(k) <==> IsHTTPRoute(k)
  {
    assert HTTPROUTE_KIND == "HTTPRoute" && GATEWAY_GROUP == "gateway.networking.k8s.io";
  }

  /** Whatever its policy, a listener takes only routes that fit. */
  lemma OnlyFitting(c: Cluster, gw: Gateway, hr: HTTPRoute, l: Listener)
    requires NamesDetermine(gw) && l in gw.listeners && Attaches(c, gw, hr, l.name)
    ensures Fits(gw, hr, l)
  {
    AttachesParts(c, gw, hr, l);
    if l.allowedRoutes.Some? { KindsExactly(l); }
  }

  /** Without a policy, or with Same, a route attaches exactly when it fits and is in the Gateway's namespace. */
  lemma SameNamespaceExactly(c: Cluster, gw: Gateway, hr: HTTPRoute, l: Listener)
    requires NamesDetermine(gw) && l in gw.listeners && (FromUnset(l) || From(l, FromSame))
    ensures Attaches(c, gw, hr, l.name) <==> Fits(gw, hr, l) && hr.namespace == gw.namespace
  {
    AttachesParts(c, gw, hr, l);
    if l.allowedRoutes.Some? { KindsExactly(l); }
  }

  /** With All, a route attaches exactly when it fits. */
  lemma AllNamespacesExactly(c: Cluster, gw: Gateway, hr: HTTPRoute, l: Listener)
    requires NamesDetermine(gw) && l in gw.listeners && From(l, FromAll)
    ensures Attaches(c, gw, hr, l.name) <==> Fits(gw, hr, l)
  {
    AttachesParts(c, gw, hr, l);
    KindsExactly(l);
  }

  /** So a route whose references say which namespace they mean attaches from every namespace or from none. */
  lemma AllIgnoresNamespace(c: Cluster, gw: Gateway, hr: HTTPRoute, l: Listener, other: string)
    requires NamesDetermine(gw) && l in gw.listeners && From(l, FromAll)
    requires forall ref :: ref in hr.parentRefs ==> ref.namespace.Some?
    ensures Attaches(c, gw, hr, l.name) <==> Attaches(c, gw, hr.(namespace := other), l.name)
  {
    AllNamespacesExactly(c, gw, hr, l);
    AllNamespacesExactly(c, gw, hr.(namespace := other), l);
  }

  /** The namespace is known and has every label that the selector requires. */
  predicate HasLabels(c: Cluster, l: Listener, namespace: string)
    requires From(l, FromSelector)
  {
    match l.allowedRoutes.value.namespaces.value.selector
    case Some(MatchLabels(required)) =>
      && namespace in c.namespaceLabels
      && forall k :: k in required ==> k in c.namespaceLabels[namespace] && c.namespaceLabels[namespace][k] == required[k]
    case _ => false
  }

  /** With Selector, a route attaches exactly when it fits and its namespace has the labels; a selector that is missing or
      cannot be parsed admits nobody. */
  lemma SelectedNamespacesExactly(c: Cluster, gw: Gateway, hr: HTTPRoute, l: Listener)
    requires NamesDetermine(gw) && l in gw.listeners && From(l, FromSelector)
    ensures Attaches(c, gw, hr, l.name) <==> Fits(gw, hr, l) && HasLabels(c, l, hr.namespace)
  {
    AttachesParts(c, gw, hr, l);
    KindsExactly(l);
  }

  /** A policy that the code does not know admits nobody. */
  lemma UnknownPolicyDenies(c: Cluster, gw: Gateway, hr: HTTPRoute, l: Listener, policy: string)
    requires NamesDetermine(gw) && l in gw.listeners && From(l, FromUnknown(policy))
    ensures !Attaches(c, gw, hr, l.name)
  {
    AttachesParts(c, gw, hr, l);
  }
}
