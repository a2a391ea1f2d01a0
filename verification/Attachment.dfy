/** Which HTTPRoutes attach to which listeners of a Gateway, and the status each parent reference gets. */
module Attachment {
  import opened Text
  import opened GatewayApi
  import opened Hostnames

  // ----- a listener's policy -----

  /** The listener's namespace policy; a selector that is missing, unparsable or about an unknown namespace denies. */
  predicate NamespaceAllowed(c: Cluster, gw: Gateway, allowed: AllowedRoutes, namespace: string) {
    var from := if allowed.namespaces.None? || allowed.namespaces.value.from.None? then FromSame
                else allowed.namespaces.value.from.value;
    match from
    case FromAll => true
    case FromSame => namespace == gw.namespace
    case FromSelector =>
      && allowed.namespaces.value.selector.Some?
      && allowed.namespaces.value.selector.value.MatchLabels?
      && namespace in c.namespaceLabels
      && var required := allowed.namespaces.value.selector.value.labels;
         forall k :: k in required ==>
           k in c.namespaceLabels[namespace] && c.namespaceLabels[namespace][k] == required[k]
    case FromUnknown(_) => false
  }

  predicate KindMatches(k: RouteGroupKind) {
    k.kind == HTTPROUTE_KIND && (k.group.None? || k.group.value == "" || k.group.value == GATEWAY_GROUP)
  }

  predicate PolicyAllows(c: Cluster, gw: Gateway, l: Listener, namespace: string) {
    if l.allowedRoutes.None? then namespace == gw.namespace
    else
      var allowed := l.allowedRoutes.value;
      NamespaceAllowed(c, gw, allowed, namespace) &&
      (allowed.kinds == [] || exists k :: k in allowed.kinds && KindMatches(k))
  }

  method IsAllowedByListener(c: Cluster, gw: Gateway, l: Listener, namespace: string) returns (allowed: bool)
    ensures allowed == PolicyAllows(c, gw, l, namespace)
  {
    if l.allowedRoutes.None? {
      return namespace == gw.namespace;
    }
    var policy := l.allowedRoutes.value;
    if !NamespaceAllowed(c, gw, policy, namespace) {
      return false;
    }
    if |policy.kinds| == 0 {
      return true;
    }
    for i := 0 to |policy.kinds|
      invariant forall k :: 0 <= k < i ==> !KindMatches(policy.kinds[k])
    {
      if KindMatches(policy.kinds[i]) {
        return true;
      }
    }
    allowed := false;
  }

  // ----- one parent reference -----

  predicate TargetsGateway(gw: Gateway, hr: HTTPRoute, ref: ParentReference) {
    ref.name == gw.name &&
    (match ref.namespace case None => hr.namespace case Some(n) => n) == gw.namespace
  }

  predicate SelectsListener(ref: ParentReference, l: Listener) {
    (ref.sectionName.None? || ref.sectionName.value == l.name) && (ref.port.None? || ref.port.value == l.port)
  }

  /** The listener takes the route through this reference. */
  predicate Accepts(c: Cluster, gw: Gateway, hr: HTTPRoute, ref: ParentReference, l: Listener) {
    SelectsListener(ref, l) && PolicyAllows(c, gw, l, hr.namespace) && HostnameAllows(l, hr.hostnames)
  }

  /** Why a reference is rejected: the reason of the last listener it selects, if it selects any. */
  function RejectionReason(c: Cluster, gw: Gateway, hr: HTTPRoute, ref: ParentReference, ls: seq<Listener>): Reason {
    if ls == [] then ReasonNoMatchingParent
    else
      var l := ls[|ls| - 1];
      if !SelectsListener(ref, l) || Accepts(c, gw, hr, ref, l) then RejectionReason(c, gw, hr, ref, ls[..|ls| - 1])
      else if !PolicyAllows(c, gw, l, hr.namespace) then ReasonNotAllowedByListeners
      else ReasonNoMatchingListenerHostname
  }

  datatype RouteParentStatus = RouteParentStatus(parentRef: ParentReference, conditions: seq<Condition>)

  const RESOLVED_REFS_UNSET := Condition(ResolvedRefs, ConditionUnset, ReasonUnset)

  function StatusOf(c: Cluster, gw: Gateway, hr: HTTPRoute, ref: ParentReference): RouteParentStatus {
    RouteParentStatus(ref, [
                        if exists l :: l in gw.listeners && Accepts(c, gw, hr, ref, l)
                        then Condition(Accepted, ConditionTrue, ReasonAccepted)
                        else Condition(Accepted, ConditionFalse, RejectionReason(c, gw, hr, ref, gw.listeners)),
                        RESOLVED_REFS_UNSET])
  }

  /** One status for every reference to this Gateway, in order. */
  function StatusesOf(c: Cluster, gw: Gateway, hr: HTTPRoute, refs: seq<ParentReference>): seq<RouteParentStatus> {
    if refs == [] then []
    else
      var ref := refs[|refs| - 1];
      StatusesOf(c, gw, hr, refs[..|refs| - 1]) +
      if TargetsGateway(gw, hr, ref) then [StatusOf(c, gw, hr, ref)] else []
  }

  // ----- one route -----

  /** The route attaches to the listener called name: some reference to this Gateway is taken by such a listener. */
  predicate Attaches(c: Cluster, gw: Gateway, hr: HTTPRoute, name: string) {
    exists ref, l :: ref in hr.parentRefs && l in gw.listeners &&
      TargetsGateway(gw, hr, ref) && Accepts(c, gw, hr, ref, l) && l.name == name
  }

  /** The names of the listeners that take the route through one reference. */
  function NamesTaken(c: Cluster, gw: Gateway, hr: HTTPRoute, ref: ParentReference): set<string> {
    set l | l in gw.listeners && Accepts(c, gw, hr, ref, l) :: l.name
  }

  function AcceptingNames(c: Cluster, gw: Gateway, hr: HTTPRoute, refs: seq<ParentReference>): set<string> {
    if refs == [] then {}
    else
      var ref := refs[|refs| - 1];
      AcceptingNames(c, gw, hr, refs[..|refs| - 1]) +
      if TargetsGateway(gw, hr, ref) then NamesTaken(c, gw, hr, ref) else {}
  }

  lemma {:induction false} AcceptingNamesAre(
    c: Cluster, gw: Gateway, hr: HTTPRoute, refs: seq<ParentReference>, name: string)
    ensures name in AcceptingNames(c, gw, hr, refs) <==>
            exists ref, l :: ref in refs && l in gw.listeners &&
              TargetsGateway(gw, hr, ref) && Accepts(c, gw, hr, ref, l) && l.name == name
  {
    if refs != [] {
      var front, last := refs[..|refs| - 1], refs[|refs| - 1];
      AcceptingNamesAre(c, gw, hr, front, name);
      assert refs == front + [last];
      if TargetsGateway(gw, hr, last) && name in NamesTaken(c, gw, hr, last) {
        var l :| l in gw.listeners && Accepts(c, gw, hr, last, l) && l.name == name;
        assert last in refs;
      }
    }
  }

  predicate ByName(gw: Gateway, m: map<string, Listener>) {
    forall n :: n in m ==> m[n].name == n && m[n] in gw.listeners
  }

  method ValidateHTTPRoute(c: Cluster, gw: Gateway, hr: HTTPRoute)
    returns (statuses: seq<RouteParentStatus>, accepting: seq<Listener>)
    ensures statuses == StatusesOf(c, gw, hr, hr.parentRefs)
    ensures forall name :: NamesListener(accepting, name) <==> Attaches(c, gw, hr, name)
    ensures forall i, j :: 0 <= i < j < |accepting| ==> accepting[i].name != accepting[j].name
    ensures forall l :: l in accepting ==> l in gw.listeners
  {
    statuses := [];
    var acceptedSet: map<string, Listener> := map[];
    for i := 0 to |hr.parentRefs|
      invariant statuses == StatusesOf(c, gw, hr, hr.parentRefs[..i])
      invariant acceptedSet.Keys == AcceptingNames(c, gw, hr, hr.parentRefs[..i])
      invariant ByName(gw, acceptedSet)
    {
      var ref := hr.parentRefs[i];
      assert hr.parentRefs[..i + 1][..i] == hr.parentRefs[..i];
      if !TargetsGateway(gw, hr, ref) {
        continue;
      }
      var status, taken := ValidateParentRef(c, gw, hr, ref);
      acceptedSet := AddListeners(gw, acceptedSet, taken);
      statuses := statuses + [status];
      assert NamesTaken(c, gw, hr, ref) == set l | l in taken :: l.name;
    }
    assert hr.parentRefs[..|hr.parentRefs|] == hr.parentRefs;
    accepting := ListenersOf(acceptedSet);
    forall name ensures NamesListener(accepting, name) <==> Attaches(c, gw, hr, name) {
      AcceptingNamesAre(c, gw, hr, hr.parentRefs, name);
      if name in acceptedSet { assert acceptedSet[name] in accepting; }
    }
  }

  method AddListeners(gw: Gateway, m: map<string, Listener>, taken: seq<Listener>) returns (r: map<string, Listener>)
    requires ByName(gw, m) && forall l :: l in taken ==> l in gw.listeners
    ensures ByName(gw, r) && r.Keys == m.Keys + set l | l in taken :: l.name
  {
    r := m;
    for k := 0 to |taken|
      invariant ByName(gw, r) && r.Keys == m.Keys + set l | l in taken[..k] :: l.name
    {
      assert taken[..k + 1] == taken[..k] + [taken[k]];
      r := r[taken[k].name := taken[k]];
    }
    assert taken[..|taken|] == taken;
  }

  /** The listeners that take the route through one reference, and the status of the reference. */
  method ValidateParentRef(c: Cluster, gw: Gateway, hr: HTTPRoute, ref: ParentReference)
    returns (status: RouteParentStatus, taken: seq<Listener>)
    ensures status == StatusOf(c, gw, hr, ref)
    ensures forall l :: l in taken <==> l in gw.listeners && Accepts(c, gw, hr, ref, l)
  {
    taken := [];
    var reason := ReasonNoMatchingParent;
    for i := 0 to |gw.listeners|
      invariant forall l :: l in taken <==> l in gw.listeners[..i] && Accepts(c, gw, hr, ref, l)
      invariant reason == RejectionReason(c, gw, hr, ref, gw.listeners[..i])
    {
      var l := gw.listeners[i];
      assert gw.listeners[..i + 1] == gw.listeners[..i] + [l];
      assert gw.listeners[..i + 1][..i] == gw.listeners[..i];
      if SelectsListener(ref, l) {
        var allowed := IsAllowedByListener(c, gw, l, hr.namespace);
        if !allowed {
          reason := ReasonNotAllowedByListeners;
          continue;
        }
        var hostAllowed := IsAllowedByHostname(l, hr.hostnames);
        if !hostAllowed {
          reason := ReasonNoMatchingListenerHostname;
          continue;
        }
        taken := taken + [l];
      }
    }
    assert gw.listeners[..|gw.listeners|] == gw.listeners;
    var condition := if |taken| == 0 then Condition(Accepted, ConditionFalse, reason)
                     else Condition(Accepted, ConditionTrue, ReasonAccepted);
    assert |taken| != 0 ==> taken[0] in taken;
    status := RouteParentStatus(ref, [condition, RESOLVED_REFS_UNSET]);
  }

  /** The values of the map, in the arbitrary order of a map iteration. */
  method ListenersOf(m: map<string, Listener>) returns (ls: seq<Listener>)
    requires forall n :: n in m ==> m[n].name == n
    ensures forall l :: l in ls <==> l.name in m && m[l.name] == l
    ensures forall i, j :: 0 <= i < j < |ls| ==> ls[i].name != ls[j].name
  {
    var rest := m.Keys;
    ls := [];
    while rest != {}
      invariant rest <= m.Keys
      invariant forall l :: l in ls <==> l.name in m && m[l.name] == l && l.name !in rest
      invariant forall i, j :: 0 <= i < j < |ls| ==> ls[i].name != ls[j].name
      decreases |rest|
    {
      var n :| n in rest;
      assert forall i :: 0 <= i < |ls| ==> ls[i] in ls;
      ls := ls + [m[n]];
      rest := rest - {n};
    }
  }

  // ----- the index of a Gateway -----

  /** The routes of a list that attach to the listener called name, in list order. */
  function Attached(c: Cluster, gw: Gateway, routes: seq<HTTPRoute>, name: string): seq<HTTPRoute> {
    if routes == [] then []
    else
      var hr := routes[|routes| - 1];
      Attached(c, gw, routes[..|routes| - 1], name) + if Attaches(c, gw, hr, name) then [hr] else []
  }

  function Lookup(index: map<string, seq<HTTPRoute>>, name: string): seq<HTTPRoute> {
    if name in index then index[name] else []
  }

  predicate RefersTo(gw: Gateway, hr: HTTPRoute) {
    exists ref :: ref in hr.parentRefs && TargetsGateway(gw, hr, ref)
  }

  function Referring(gw: Gateway, routes: seq<HTTPRoute>): seq<HTTPRoute> {
    if routes == [] then []
    else
      var hr := routes[|routes| - 1];
      Referring(gw, routes[..|routes| - 1]) + if RefersTo(gw, hr) then [hr] else []
  }

  /** Routes without a reference to the Gateway would not attach anyway. */
  lemma {:induction false} AttachedAmongReferring(c: Cluster, gw: Gateway, routes: seq<HTTPRoute>, name: string)
    ensures Attached(c, gw, Referring(gw, routes), name) == Attached(c, gw, routes, name)
  {
    if routes != [] {
      var front, hr := routes[..|routes| - 1], routes[|routes| - 1];
      AttachedAmongReferring(c, gw, front, name);
      var rs := Referring(gw, routes);
      if RefersTo(gw, hr) {
        assert rs[..|rs| - 1] == Referring(gw, front);
      } else {
        assert rs == Referring(gw, front);
        assert !Attaches(c, gw, hr, name);
      }
    }
  }

  method ListHTTPRoutesForGateway(gw: Gateway, routes: seq<HTTPRoute>) returns (found: seq<HTTPRoute>)
    ensures found == Referring(gw, routes)
  {
    found := [];
    for i := 0 to |routes|
      invariant found == Referring(gw, routes[..i])
    {
      assert routes[..i + 1][..i] == routes[..i];
      var refers := false;
      for k := 0 to |routes[i].parentRefs|
        invariant !refers
        invariant forall x :: 0 <= x < k ==> !TargetsGateway(gw, routes[i], routes[i].parentRefs[x])
      {
        if TargetsGateway(gw, routes[i], routes[i].parentRefs[k]) {
          refers := true;
          break;
        }
      }
      if refers {
        found := found + [routes[i]];
      }
    }
    assert routes[..|routes|] == routes;
  }

  function KeyOf(hr: HTTPRoute): NamespacedName { NamespacedName(hr.namespace, hr.name) }

  function KeysOf(routes: seq<HTTPRoute>): set<NamespacedName> { set hr | hr in routes :: KeyOf(hr) }

  lemma KeysOneMore(routes: seq<HTTPRoute>, i: nat)
    requires i < |routes|
    ensures KeysOf(routes[..i + 1]) == KeysOf(routes[..i]) + {KeyOf(routes[i])}
  {
    assert routes[..i + 1] == routes[..i] + [routes[i]];
  }

  ghost predicate DistinctKeys(routes: seq<HTTPRoute>) {
    forall i, j :: 0 <= i < j < |routes| ==> KeyOf(routes[i]) != KeyOf(routes[j])
  }

  ghost predicate Indexes(c: Cluster, gw: Gateway, routes: seq<HTTPRoute>, index: map<string, seq<HTTPRoute>>) {
    forall name {:trigger Lookup(index, name)} :: Lookup(index, name) == Attached(c, gw, routes, name)
  }

  /** The statuses of the routes are recorded under their keys. */
  ghost predicate Records(
    c: Cluster, gw: Gateway, routes: seq<HTTPRoute>, statuses: map<NamespacedName, seq<RouteParentStatus>>)
  {
    forall hr :: hr in routes ==>
      KeyOf(hr) in statuses && statuses[KeyOf(hr)] == StatusesOf(c, gw, hr, hr.parentRefs)
  }

  lemma RecordsOneMore(
    c: Cluster, gw: Gateway, routes: seq<HTTPRoute>, i: nat, statuses: map<NamespacedName, seq<RouteParentStatus>>)
    requires i < |routes| && DistinctKeys(routes) && Records(c, gw, routes[..i], statuses)
    ensures Records(c, gw, routes[..i + 1],
                    statuses[KeyOf(routes[i]) := StatusesOf(c, gw, routes[i], routes[i].parentRefs)])
  {
    forall hr | hr in routes[..i + 1] ensures hr == routes[i] || (hr in routes[..i] && KeyOf(hr) != KeyOf(routes[i])) {
      var k :| 0 <= k <= i && routes[..i + 1][k] == hr;
      assert k < i ==> routes[..i][k] == hr;
    }
  }

  /** Adds one route with a reference to the Gateway to index and statuses. */
  method GatherRoute(c: Cluster, gw: Gateway, found: seq<HTTPRoute>, i: nat, index: map<string, seq<HTTPRoute>>,
                     statuses: map<NamespacedName, seq<RouteParentStatus>>)
    returns (index': map<string, seq<HTTPRoute>>, statuses': map<NamespacedName, seq<RouteParentStatus>>)
    requires i < |found| && Indexes(c, gw, found[..i], index) && KeysOf(found[..i]) == statuses.Keys
    requires StatusesOf(c, gw, found[i], found[i].parentRefs) != []
    requires DistinctKeys(found) ==> Records(c, gw, found[..i], statuses)
    ensures Indexes(c, gw, found[..i + 1], index') && KeysOf(found[..i + 1]) == statuses'.Keys
    ensures DistinctKeys(found) ==> Records(c, gw, found[..i + 1], statuses')
  {
    KeysOneMore(found, i);
    if DistinctKeys(found) { RecordsOneMore(c, gw, found, i, statuses); }
    var parentStatuses, accepting := ValidateHTTPRoute(c, gw, found[i]);
    statuses' := statuses;
    if |parentStatuses| > 0 {
      statuses' := statuses[KeyOf(found[i]) := parentStatuses];
    }
    index' := AddToIndex(index, accepting, found[i]);
    IndexesOneMore(c, gw, found, i, index, index');
  }

  /** The index holds, for every listener name, exactly the attached routes in list order, each as often as it is
      listed; and the statuses of a route are those of its references to this Gateway. */
  method GatherRoutesAndParentStatuses(c: Cluster, gw: Gateway, routes: seq<HTTPRoute>)
    returns (index: map<string, seq<HTTPRoute>>, statuses: map<NamespacedName, seq<RouteParentStatus>>)
    ensures Indexes(c, gw, routes, index)
    ensures KeysOf(Referring(gw, routes)) == statuses.Keys
    ensures DistinctKeys(routes) ==> Records(c, gw, Referring(gw, routes), statuses)
  {
    index, statuses := map[], map[];
    var found := ListHTTPRoutesForGateway(gw, routes);
    assert found[..|found|] == found;
    if DistinctKeys(routes) { ReferringKeysDistinct(gw, routes); }
    for i := 0 to |found|
      invariant Indexes(c, gw, found[..i], index)
      invariant KeysOf(found[..i]) == statuses.Keys
      invariant DistinctKeys(found) ==> Records(c, gw, found[..i], statuses)
    {
      ReferringHasStatus(c, gw, routes, found[i]);
      index, statuses := GatherRoute(c, gw, found, i, index, statuses);
    }
    forall name ensures Lookup(index, name) == Attached(c, gw, routes, name) {
      AttachedAmongReferring(c, gw, routes, name);
    }
  }

  predicate NamesListener(ls: seq<Listener>, name: string) { exists l :: l in ls && l.name == name }

  /** Adds a route to the lists of the accepting listeners, once per name. */
  method AddToIndex(index: map<string, seq<HTTPRoute>>, accepting: seq<Listener>, hr: HTTPRoute)
    returns (r: map<string, seq<HTTPRoute>>)
    ensures forall n {:trigger Lookup(r, n)} ::
              Lookup(r, n) == Lookup(index, n) + if NamesListener(accepting, n) then [hr] else []
  {
    r := index;
    var processed: set<string> := {};
    for i := 0 to |accepting|
      invariant forall n :: n in processed <==> exists k :: 0 <= k < i && accepting[k].name == n
      invariant Extends(index, processed, hr, r)
    {
      var name := accepting[i].name;
      if name !in processed {
        ExtendsOneMore(index, processed, hr, r, name);
        r := r[name := Lookup(r, name) + [hr]];
        processed := processed + {name};
      }
    }
    forall n ensures n in processed <==> NamesListener(accepting, n) {
    }
  }

  /** r is index with hr appended to the lists of the names. */
  ghost predicate Extends(
    index: map<string, seq<HTTPRoute>>, names: set<string>, hr: HTTPRoute, r: map<string, seq<HTTPRoute>>)
  {
    forall n {:trigger Lookup(r, n)} :: Lookup(r, n) == Lookup(index, n) + if n in names then [hr] else []
  }

  lemma ExtendsOneMore(index: map<string, seq<HTTPRoute>>, names: set<string>, hr: HTTPRoute,
                       r: map<string, seq<HTTPRoute>>, name: string)
    requires Extends(index, names, hr, r) && name !in names
    ensures Extends(index, names + {name}, hr, r[name := Lookup(r, name) + [hr]])
  {
    var r' := r[name := Lookup(r, name) + [hr]];
    forall n ensures Lookup(r', n) == Lookup(index, n) + if n in names + {name} then [hr] else [] {
      assert Lookup(r', n) == if n == name then Lookup(r, n) + [hr] else Lookup(r, n);
    }
  }

  lemma IndexesOneMore(c: Cluster, gw: Gateway, routes: seq<HTTPRoute>, i: nat,
                       before: map<string, seq<HTTPRoute>>, after: map<string, seq<HTTPRoute>>)
    requires i < |routes| && Indexes(c, gw, routes[..i], before)
    requires forall n {:trigger Lookup(after, n)} ::
               Lookup(after, n) == Lookup(before, n) + if Attaches(c, gw, routes[i], n) then [routes[i]] else []
    ensures Indexes(c, gw, routes[..i + 1], after)
  {
    assert routes[..i + 1][..i] == routes[..i];
    forall n ensures Lookup(after, n) == Attached(c, gw, routes[..i + 1], n) {
      assert Lookup(before, n) == Attached(c, gw, routes[..i], n);
    }
  }

  lemma {:induction false} ReferringKeysDistinct(gw: Gateway, routes: seq<HTTPRoute>)
    requires DistinctKeys(routes)
    ensures DistinctKeys(Referring(gw, routes))
    ensures forall hr :: hr in Referring(gw, routes) ==> hr in routes
  {
    if routes != [] {
      var front, last := routes[..|routes| - 1], routes[|routes| - 1];
      ReferringKeysDistinct(gw, front);
      var rs := Referring(gw, front);
      forall i | 0 <= i < |rs| ensures KeyOf(rs[i]) != KeyOf(last) {
        assert rs[i] in front;
        var k :| 0 <= k < |front| && front[k] == rs[i];
      }
    }
  }

  lemma {:induction false} ReferringHasStatus(c: Cluster, gw: Gateway, routes: seq<HTTPRoute>, hr: HTTPRoute)
    requires hr in Referring(gw, routes)
    ensures RefersTo(gw, hr) && StatusesOf(c, gw, hr, hr.parentRefs) != []
  {
    if hr in Referring(gw, routes[..|routes| - 1]) {
      ReferringHasStatus(c, gw, routes[..|routes| - 1], hr);
    } else {
      var ref :| ref in hr.parentRefs && TargetsGateway(gw, hr, ref);
      TargetedHasStatus(c, gw, hr, hr.parentRefs, ref);
    }
  }

  /** Every reference to this Gateway gets its status. */
  lemma {:induction false} TargetedHasStatus(
    c: Cluster, gw: Gateway, hr: HTTPRoute, refs: seq<ParentReference>, ref: ParentReference)
    requires ref in refs && TargetsGateway(gw, hr, ref)
    ensures StatusOf(c, gw, hr, ref) in StatusesOf(c, gw, hr, refs)
  {
    if ref in refs[..|refs| - 1] { TargetedHasStatus(c, gw, hr, refs[..|refs| - 1], ref); }
  }

  // ----- what the index and the statuses say -----

  /** A route is in a listener's list exactly when it is listed and attaches. */
  lemma {:induction false} AttachedExactly(c: Cluster, gw: Gateway, routes: seq<HTTPRoute>, name: string, hr: HTTPRoute)
    ensures hr in Attached(c, gw, routes, name) <==> hr in routes && Attaches(c, gw, hr, name)
  {
    if routes != [] {
      AttachedExactly(c, gw, routes[..|routes| - 1], name, hr);
      assert routes == routes[..|routes| - 1] + [routes[|routes| - 1]];
    }
  }

  /** No route is listed twice under one listener when the lister has no duplicates. */
  lemma {:induction false} AttachedOnce(c: Cluster, gw: Gateway, routes: seq<HTTPRoute>, name: string)
    requires forall i, j :: 0 <= i < j < |routes| ==> routes[i] != routes[j]
    ensures var rs := Attached(c, gw, routes, name); forall i, j :: 0 <= i < j < |rs| ==> rs[i] != rs[j]
  {
    if routes != [] {
      var front := routes[..|routes| - 1];
      AttachedOnce(c, gw, front, name);
      AttachedExactly(c, gw, front, name, routes[|routes| - 1]);
    }
  }

  /** A reference is reported Accepted exactly when some listener of the Gateway takes it, and else rejected for a reason. */
  lemma AcceptedExactly(c: Cluster, gw: Gateway, hr: HTTPRoute, ref: ParentReference)
    requires ref in hr.parentRefs && TargetsGateway(gw, hr, ref)
    ensures StatusOf(c, gw, hr, ref) in StatusesOf(c, gw, hr, hr.parentRefs)
    ensures IsStatusConditionTrue(StatusOf(c, gw, hr, ref).conditions, Accepted) <==>
            exists l :: l in gw.listeners && Accepts(c, gw, hr, ref, l)
    ensures FindCondition(StatusOf(c, gw, hr, ref).conditions, Accepted) ==
              if exists l :: l in gw.listeners && Accepts(c, gw, hr, ref, l)
              then Some(Condition(Accepted, ConditionTrue, ReasonAccepted))
              else Some(Condition(Accepted, ConditionFalse, RejectionReason(c, gw, hr, ref, gw.listeners)))
  {
    TargetedHasStatus(c, gw, hr, hr.parentRefs, ref);
  }

  /** Listener k is the last one that the reference selects. */
  predicate LastSelected(ref: ParentReference, ls: seq<Listener>, k: nat) {
    k < |ls| && SelectsListener(ref, ls[k]) && forall j :: k < j < |ls| ==> !SelectsListener(ref, ls[j])
  }

  /** A rejected reference selects no listener, or else the reason is that of the last one it selects: its policy denies, or
      if not, its hostname. */
  lemma {:induction false} RejectionReasonExactly(
    c: Cluster, gw: Gateway, hr: HTTPRoute, ref: ParentReference, ls: seq<Listener>)
    requires forall l :: l in ls ==> !Accepts(c, gw, hr, ref, l)
    ensures var reason := RejectionReason(c, gw, hr, ref, ls);
      && (reason == ReasonNoMatchingParent <==> forall l :: l in ls ==> !SelectsListener(ref, l))
      && forall k: nat :: LastSelected(ref, ls, k) ==>
           if PolicyAllows(c, gw, ls[k], hr.namespace)
           then reason == ReasonNoMatchingListenerHostname && !HostnameAllows(ls[k], hr.hostnames)
           else reason == ReasonNotAllowedByListeners
  {
    if ls != [] {
      var front, last := ls[..|ls| - 1], ls[|ls| - 1];
      RejectionReasonExactly(c, gw, hr, ref, front);
      assert ls == front + [last] && last in ls;
    }
  }

  lemma {:induction false} StatusOrigin(
    c: Cluster, gw: Gateway, hr: HTTPRoute, refs: seq<ParentReference>, st: RouteParentStatus) returns (ref: ParentReference)
    requires st in StatusesOf(c, gw, hr, refs)
    ensures ref in refs && TargetsGateway(gw, hr, ref) && st == StatusOf(c, gw, hr, ref)
  {
    if st in StatusesOf(c, gw, hr, refs[..|refs| - 1]) {
      ref := StatusOrigin(c, gw, hr, refs[..|refs| - 1], st);
    } else {
      ref := refs[|refs| - 1];
    }
  }

  /** A route attaches to some listener exactly when one of its reported statuses is Accepted. */
  lemma StatusesTellAttachment(c: Cluster, gw: Gateway, hr: HTTPRoute)
    ensures (exists name :: Attaches(c, gw, hr, name)) <==>
            exists st :: st in StatusesOf(c, gw, hr, hr.parentRefs) && IsStatusConditionTrue(st.conditions, Accepted)
  {
    if name :| Attaches(c, gw, hr, name) {
      var ref, l :| ref in hr.parentRefs && l in gw.listeners &&
        TargetsGateway(gw, hr, ref) && Accepts(c, gw, hr, ref, l) && l.name == name;
      AcceptedExactly(c, gw, hr, ref);
    }
    if st :| st in StatusesOf(c, gw, hr, hr.parentRefs) && IsStatusConditionTrue(st.conditions, Accepted) {
      var ref := StatusOrigin(c, gw, hr, hr.parentRefs, st);
      AcceptedExactly(c, gw, hr, ref);
      var l :| l in gw.listeners && Accepts(c, gw, hr, ref, l);
      assert Attaches(c, gw, hr, l.name);
    }
  }
}
