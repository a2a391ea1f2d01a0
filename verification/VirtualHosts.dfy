/** Aggregating the routes of all attachments on a port into virtual hosts. */
module VirtualHosts {
  import opened Text
  import opened GatewayApi
  import opened EnvoyApi
  import opened Names
  import opened Precedence
  import opened RouteTranslation
  import opened Hostnames
  import opened Attachment

  /** A route on a listener that takes it. */
  datatype Link = Link(listener: Listener, route: HTTPRoute)

  type Index = map<string, seq<HTTPRoute>>

  predicate Routed(l: Listener) { l.protocol == HTTP || l.protocol == HTTPS }

  /** The routes that are translated for a listener; other protocols get none. */
  function RoutesOn(l: Listener, index: Index): seq<HTTPRoute> { if Routed(l) then Lookup(index, l.name) else [] }

  /** The attachments of the listeners before i and the first j of listener i, in order. */
  function AttachmentsUpTo(ls: seq<Listener>, index: Index, i: nat, j: nat): seq<Link>
    requires i <= |ls| && (j == 0 || (i < |ls| && j <= |RoutesOn(ls[i], index)|))
    decreases i, j
  {
    if j > 0 then AttachmentsUpTo(ls, index, i, j - 1) + [Link(ls[i], RoutesOn(ls[i], index)[j - 1])]
    else if i > 0 then AttachmentsUpTo(ls, index, i - 1, |RoutesOn(ls[i - 1], index)|)
    else []
  }

  /** The attachments are the routes indexed under the HTTP and HTTPS listeners. */
  lemma {:induction false} AttachmentsExactly(ls: seq<Listener>, index: Index, i: nat, j: nat, a: Link)
    requires i <= |ls| && (j == 0 || (i < |ls| && j <= |RoutesOn(ls[i], index)|))
    ensures a in AttachmentsUpTo(ls, index, i, j) <==>
            (a.listener in ls[..i] && a.route in RoutesOn(a.listener, index)) ||
            (j > 0 && a.listener == ls[i] && a.route in RoutesOn(ls[i], index)[..j])
    decreases i, j
  {
    if j > 0 {
      AttachmentsExactly(ls, index, i, j - 1, a);
      var rs := RoutesOn(ls[i], index);
      assert rs[..j] == rs[..j - 1] + [rs[j - 1]];
    } else if i > 0 {
      var rs := RoutesOn(ls[i - 1], index);
      AttachmentsExactly(ls, index, i - 1, |rs|, a);
      assert rs[..|rs|] == rs && ls[..i] == ls[..i - 1] + [ls[i - 1]];
    }
  }

  lemma OwnAttachment(ls: seq<Listener>, index: Index, i: nat, a: Link)
    requires i < |ls| && a.listener == ls[i] && a.route in RoutesOn(ls[i], index)
    ensures a in AttachmentsUpTo(ls, index, i + 1, 0)
  {
    AttachmentsExactly(ls, index, i + 1, 0, a);
    assert ls[..i + 1][i] == a.listener;
  }

  // ----- what the virtual hosts must hold -----

  function Times(m: multiset<Route>, k: nat): multiset<Route> { if k == 0 then multiset{} else Times(m, k - 1) + m }

  function DomainsOf(a: Link): multiset<string> { Intersecting(a.listener, a.route.hostnames) }

  function RoutesOfLink(c: Cluster, a: Link): multiset<Route> { multiset(Expanded(c, a.route).routes) }

  /** The routes of a domain: those of every attachment, once per occurrence of the domain among its domains. */
  function HostRoutes(c: Cluster, atts: seq<Link>, domain: string): multiset<Route> {
    if atts == [] then multiset{}
    else
      var a := atts[|atts| - 1];
      HostRoutes(c, atts[..|atts| - 1], domain) + Times(RoutesOfLink(c, a), DomainsOf(a)[domain])
  }

  /** Some attachment with at least one route is served on the domain. */
  ghost predicate Served(c: Cluster, atts: seq<Link>, domain: string) {
    exists a :: a in atts && RoutesOfLink(c, a) != multiset{} && domain in DomainsOf(a)
  }

  /** One virtual host per served domain, holding exactly the domain's routes. */
  ghost predicate HostsFor(
    c: Cluster, gateway: string, port: int, atts: seq<Link>, hosts: map<string, VirtualHost>)
  {
    && (forall d :: d in hosts <==> Served(c, atts, d))
    && WellNamed(gateway, port, hosts)
    && (forall d {:trigger RoutesAt(hosts, d)} :: RoutesAt(hosts, d) == HostRoutes(c, atts, d))
  }

  ghost predicate WellNamed(gateway: string, port: int, hosts: map<string, VirtualHost>) {
    forall d :: d in hosts ==> hosts[d].domain == d && hosts[d].name == gateway + "-vh-" + Signed(port) + "-" + d
  }

  function RoutesAt(hosts: map<string, VirtualHost>, d: string): multiset<Route> {
    if d in hosts then multiset(hosts[d].routes) else multiset{}
  }

  lemma ServedOneMore(c: Cluster, atts: seq<Link>, a: Link, d: string)
    ensures Served(c, atts + [a], d) <==>
            Served(c, atts, d) || (RoutesOfLink(c, a) != multiset{} && d in DomainsOf(a))
  {
    if x :| x in atts && RoutesOfLink(c, x) != multiset{} && d in DomainsOf(x) { assert x in atts + [a]; }
    assert a in atts + [a];
  }

  lemma HostRoutesOneMore(c: Cluster, atts: seq<Link>, a: Link, d: string)
    ensures HostRoutes(c, atts + [a], d) == HostRoutes(c, atts, d) + Times(RoutesOfLink(c, a), DomainsOf(a)[d])
  {
    var more := atts + [a];
    assert more[..|more| - 1] == atts && more[|more| - 1] == a;
  }

  lemma {:induction false} TimesNothing(k: nat)
    ensures Times(multiset{}, k) == multiset{}
  {
    if k > 0 { TimesNothing(k - 1); }
  }

  // ----- adding one attachment -----

  /** r has the virtual hosts of hosts and of the domains. */
  predicate Covering(hosts: map<string, VirtualHost>, domains: seq<string>, r: map<string, VirtualHost>) {
    r.Keys == hosts.Keys + set d | d in domains
  }

  /** The routes in r are those in hosts, with m added once per occurrence of a domain. */
  ghost predicate Added(
    hosts: map<string, VirtualHost>, domains: seq<string>, m: multiset<Route>, r: map<string, VirtualHost>)
  {
    forall d {:trigger RoutesAt(r, d)} :: RoutesAt(r, d) == RoutesAt(hosts, d) + Times(m, multiset(domains)[d])
  }

  lemma AddedOneMore(hosts: map<string, VirtualHost>, domains: seq<string>, m: multiset<Route>,
                     r: map<string, VirtualHost>, domain: string, vh: VirtualHost)
    requires Added(hosts, domains, m, r)
    requires multiset(vh.routes) == RoutesAt(r, domain) + m
    ensures Added(hosts, domains + [domain], m, r[domain := vh])
  {
    forall d
      ensures RoutesAt(r[domain := vh], d) == RoutesAt(hosts, d) + Times(m, multiset(domains + [domain])[d])
    {
      AddedAt(hosts, domains, m, r, domain, vh, d);
    }
  }

  lemma AddedAt(hosts: map<string, VirtualHost>, domains: seq<string>, m: multiset<Route>,
                r: map<string, VirtualHost>, domain: string, vh: VirtualHost, d: string)
    requires RoutesAt(r, d) == RoutesAt(hosts, d) + Times(m, multiset(domains)[d])
    requires multiset(vh.routes) == RoutesAt(r, domain) + m
    ensures RoutesAt(r[domain := vh], d) == RoutesAt(hosts, d) + Times(m, multiset(domains + [domain])[d])
  {
    CountOneMore(domains, domain, d);
    if d == domain {
      RoutesOneMore(RoutesAt(hosts, d), m, multiset(domains)[d]);
    } else {
      assert RoutesAt(r[domain := vh], d) == RoutesAt(r, d);
    }
  }

  lemma CountOneMore<T(!new)>(s: seq<T>, x: T, y: T)
    ensures multiset(s + [x])[y] == multiset(s)[y] + if y == x then 1 else 0
  {
  }

  lemma RoutesOneMore(a: multiset<Route>, m: multiset<Route>, k: nat)
    ensures a + Times(m, k) + m == a + Times(m, k + 1)
  {
    Regroup(a, Times(m, k), m);
  }

  lemma Regroup(a: multiset<Route>, b: multiset<Route>, c: multiset<Route>)
    ensures (a + b) + c == a + (b + c)
  {
  }

  lemma NothingAdded(hosts: map<string, VirtualHost>, m: multiset<Route>)
    ensures Covering(hosts, [], hosts) && Added(hosts, [], m, hosts)
  {
    forall d ensures RoutesAt(hosts, d) + Times(m, 0) == RoutesAt(hosts, d) {
    }
  }

  lemma CoveringOneMore(hosts: map<string, VirtualHost>, domains: seq<string>, r: map<string, VirtualHost>,
                        domain: string, vh: VirtualHost)
    requires Covering(hosts, domains, r)
    ensures Covering(hosts, domains + [domain], r[domain := vh])
  {
    assert (set d | d in domains + [domain]) == (set d | d in domains) + {domain};
  }

  /** Appends the routes to the virtual host of one domain, creating it as needed. */
  method AddToHost(hosts: map<string, VirtualHost>, gateway: string, port: int, domain: string, routes: seq<Route>)
    returns (vh: VirtualHost)
    requires WellNamed(gateway, port, hosts)
    ensures vh.domain == domain && vh.name == VHostName(gateway, port, domain)
    ensures multiset(vh.routes) == RoutesAt(hosts, domain) + multiset(routes)
  {
    vh := if domain in hosts then hosts[domain] else VirtualHost(VHostName(gateway, port, domain), domain, []);
    vh := vh.(routes := vh.routes + routes);
  }

  /** Appends the routes to the virtual host of every listed domain. */
  method AddRoutes(hosts: map<string, VirtualHost>, gateway: string, port: int, domains: seq<string>, routes: seq<Route>)
    returns (r: map<string, VirtualHost>)
    requires WellNamed(gateway, port, hosts)
    ensures WellNamed(gateway, port, r)
    ensures Covering(hosts, domains, r)
    ensures Added(hosts, domains, multiset(routes), r)
  {
    r := hosts;
    ghost var done: seq<string> := [];
    NothingAdded(hosts, multiset(routes));
    for i := 0 to |domains|
      invariant done == domains[..i]
      invariant WellNamed(gateway, port, r)
      invariant Covering(hosts, done, r)
      invariant Added(hosts, done, multiset(routes), r)
    {
      var vh := AddToHost(r, gateway, port, domains[i], routes);
      CoveringOneMore(hosts, done, r, domains[i], vh);
      AddedOneMore(hosts, done, multiset(routes), r, domains[i], vh);
      r := r[domains[i] := vh];
      done := done + [domains[i]];
    }
    assert done == domains;
  }

  /** The whole effect of one attachment on the virtual hosts. */
  method Attach(c: Cluster, gateway: string, port: int, hosts: map<string, VirtualHost>, l: Listener, hr: HTTPRoute,
                routes: seq<Route>, ghost atts: seq<Link>) returns (r: map<string, VirtualHost>)
    requires HostsFor(c, gateway, port, atts, hosts)
    requires IsSortOf(Expanded(c, hr).routes, routes)
    ensures HostsFor(c, gateway, port, atts + [Link(l, hr)], r)
  {
    ghost var a := Link(l, hr);
    forall d ensures Served(c, atts + [a], d) <==>
                     Served(c, atts, d) || (RoutesOfLink(c, a) != multiset{} && d in DomainsOf(a))
             ensures HostRoutes(c, atts + [a], d) ==
                     HostRoutes(c, atts, d) + Times(RoutesOfLink(c, a), DomainsOf(a)[d])
    {
      ServedOneMore(c, atts, a, d);
      HostRoutesOneMore(c, atts, a, d);
    }
    if |routes| == 0 {
      forall d { TimesNothing(DomainsOf(a)[d]); }
      return hosts;
    }
    assert routes[0] in multiset(routes);
    var domains := GetIntersectingHostnames(l, hr.hostnames);
    r := AddRoutes(hosts, gateway, port, domains, routes);
    assert forall d :: d in domains <==> d in multiset(domains);
  }

  // ----- the configuration of one listener -----

  /** The serialised virtual hosts: one per served domain, each with exactly its routes in precedence order. */
  ghost predicate ServesExactly(
    c: Cluster, gateway: string, port: int, atts: seq<Link>, vhs: seq<VirtualHost>)
  {
    && (forall i, j :: 0 <= i < j < |vhs| ==> vhs[i].domain != vhs[j].domain)
    && (forall d :: (exists vh :: vh in vhs && vh.domain == d) <==> Served(c, atts, d))
    && (forall vh :: vh in vhs ==> HoldsExactly(c, gateway, port, atts, vh))
  }

  ghost predicate HoldsExactly(c: Cluster, gateway: string, port: int, atts: seq<Link>, vh: VirtualHost) {
    && vh.name == VHostName(gateway, port, vh.domain)
    && Sorted(vh.routes) && multiset(vh.routes) == HostRoutes(c, atts, vh.domain)
  }

  method SortHost(vh: VirtualHost) returns (r: VirtualHost)
    ensures r.name == vh.name && r.domain == vh.domain
    ensures multiset(r.routes) == multiset(vh.routes) && Sorted(r.routes)
  {
    var slice := new Route[|vh.routes|](k requires 0 <= k < |vh.routes| => vh.routes[k]);
    assert slice[..] == vh.routes;
    SortRoutes(slice);
    r := vh.(routes := slice[..]);
  }

  /** The list holds the sorted virtual hosts of all domains that are not left over. */
  ghost predicate Lists(hosts: map<string, VirtualHost>, rest: set<string>, vhs: seq<VirtualHost>) {
    && (forall i, j :: 0 <= i < j < |vhs| ==> vhs[i].domain != vhs[j].domain)
    && (forall vh :: vh in vhs <==> vh.domain in hosts && vh.domain !in rest && vh == hosts[vh.domain])
    && (forall vh :: vh in vhs ==> Sorted(vh.routes))
  }

  lemma ListsOneMore(hosts: map<string, VirtualHost>, rest: set<string>, vhs: seq<VirtualHost>, vh: VirtualHost)
    requires Lists(hosts, rest, vhs) && vh.domain in rest && rest <= hosts.Keys && Sorted(vh.routes)
    ensures Lists(hosts[vh.domain := vh], rest - {vh.domain}, vhs + [vh])
  {
    assert forall i :: 0 <= i < |vhs| ==> vhs[i] in vhs;
  }

  /** The same virtual hosts with the same routes, up to order. */
  ghost predicate SameHosts(hosts: map<string, VirtualHost>, sorted: map<string, VirtualHost>) {
    && sorted.Keys == hosts.Keys
    && forall d :: d in hosts ==>
         && sorted[d].name == hosts[d].name && sorted[d].domain == hosts[d].domain
         && RoutesAt(sorted, d) == RoutesAt(hosts, d)
  }

  lemma SameHostsOneMore(hosts: map<string, VirtualHost>, sorted: map<string, VirtualHost>, d: string, vh: VirtualHost)
    requires SameHosts(hosts, sorted) && d in sorted
    requires vh.name == sorted[d].name && vh.domain == sorted[d].domain
    requires multiset(vh.routes) == multiset(sorted[d].routes)
    ensures SameHosts(hosts, sorted[d := vh])
  {
  }

  lemma SameHostsMeansHostsFor(c: Cluster, gateway: string, port: int, atts: seq<Link>,
                               hosts: map<string, VirtualHost>, sorted: map<string, VirtualHost>)
    requires HostsFor(c, gateway, port, atts, hosts) && SameHosts(hosts, sorted)
    ensures HostsFor(c, gateway, port, atts, sorted)
  {
    forall d ensures RoutesAt(sorted, d) == HostRoutes(c, atts, d) {
      assert RoutesAt(sorted, d) == RoutesAt(hosts, d);
    }
  }

  /** Sorts every virtual host and lists them, in the arbitrary order of a map iteration. */
  method SerialiseHosts(hosts: map<string, VirtualHost>) returns (sorted: map<string, VirtualHost>, vhs: seq<VirtualHost>)
    requires forall d :: d in hosts ==> hosts[d].domain == d
    ensures SameHosts(hosts, sorted)
    ensures Lists(sorted, {}, vhs)
  {
    sorted, vhs := hosts, [];
    var rest := hosts.Keys;
    while rest != {}
      invariant rest <= sorted.Keys
      invariant SameHosts(hosts, sorted)
      invariant Lists(sorted, rest, vhs)
      decreases |rest|
    {
      var d :| d in rest;
      var vh := SortHost(sorted[d]);
      ListsOneMore(sorted, rest, vhs, vh);
      SameHostsOneMore(hosts, sorted, d, vh);
      sorted := sorted[d := vh];
      vhs := vhs + [vh];
      rest := rest - {d};
    }
  }

  lemma ListedServesExactly(
    c: Cluster, gateway: string, port: int, atts: seq<Link>, hosts: map<string, VirtualHost>, vhs: seq<VirtualHost>)
    requires HostsFor(c, gateway, port, atts, hosts) && Lists(hosts, {}, vhs)
    ensures ServesExactly(c, gateway, port, atts, vhs)
  {
    forall d ensures (exists vh :: vh in vhs && vh.domain == d) <==> Served(c, atts, d) {
      if d in hosts { assert hosts[d] in vhs; }
    }
    forall vh | vh in vhs ensures HoldsExactly(c, gateway, port, atts, vh) {
      HostHoldsExactly(c, gateway, port, atts, hosts, vh.domain);
    }
  }

  lemma HostHoldsExactly(
    c: Cluster, gateway: string, port: int, atts: seq<Link>, hosts: map<string, VirtualHost>, d: string)
    requires HostsFor(c, gateway, port, atts, hosts) && d in hosts && Sorted(hosts[d].routes)
    ensures HoldsExactly(c, gateway, port, atts, hosts[d])
  {
    assert RoutesAt(hosts, d) == HostRoutes(c, atts, d);
  }

  // ----- consequences -----

  /** Every route of a served domain was compiled from an attachment that the domain belongs to. */
  lemma {:induction false} HostRouteOrigin(c: Cluster, atts: seq<Link>, domain: string, r: Route) returns (a: Link)
    requires r in HostRoutes(c, atts, domain)
    ensures a in atts && domain in DomainsOf(a) && r in Expanded(c, a.route).routes
  {
    var last := atts[|atts| - 1];
    if r in HostRoutes(c, atts[..|atts| - 1], domain) {
      a := HostRouteOrigin(c, atts[..|atts| - 1], domain, r);
    } else {
      a := last;
      InTimes(RoutesOfLink(c, a), DomainsOf(a)[domain], r);
    }
  }

  lemma {:induction false} InTimes(m: multiset<Route>, k: nat, r: Route)
    ensures r in Times(m, k) <==> k > 0 && r in m
  {
    if k > 0 { InTimes(m, k - 1, r); }
  }

  /** Every domain of an attachment with a route has its virtual host. */
  lemma DomainIsServed(c: Cluster, gateway: string, port: int, atts: seq<Link>, vhs: seq<VirtualHost>, a: Link,
                       d: string, r: Route)
    returns (vh: VirtualHost)
    requires ServesExactly(c, gateway, port, atts, vhs) && a in atts
    requires d in DomainsOf(a) && r in Expanded(c, a.route).routes
    ensures vh in vhs && vh.domain == d
  {
    assert r in RoutesOfLink(c, a);
    assert Served(c, atts, d);
    vh :| vh in vhs && vh.domain == d;
  }

  /** An attached route that compiles to anything is served on some virtual host, with all its routes. */
  lemma AttachedIsServed(c: Cluster, gateway: string, port: int, atts: seq<Link>, vhs: seq<VirtualHost>, a: Link)
    returns (vh: VirtualHost)
    requires ServesExactly(c, gateway, port, atts, vhs) && a in atts
    requires HostnameAllows(a.listener, a.route.hostnames) && Expanded(c, a.route).routes != []
    ensures vh in vhs && vh.domain in DomainsOf(a)
    ensures forall r :: r in Expanded(c, a.route).routes ==> r in vh.routes
  {
    AcceptanceIsExposure(a.listener, a.route.hostnames);
    var d :| d in DomainsOf(a);
    vh := DomainIsServed(c, gateway, port, atts, vhs, a, d, Expanded(c, a.route).routes[0]);
    forall r | r in Expanded(c, a.route).routes ensures r in vh.routes {
      AttachmentContributes(c, atts, a, d, r);
      assert r in multiset(vh.routes);
    }
  }

  lemma {:induction false} AttachmentContributes(c: Cluster, atts: seq<Link>, a: Link, d: string, r: Route)
    requires a in atts && d in DomainsOf(a) && r in Expanded(c, a.route).routes
    ensures r in HostRoutes(c, atts, d)
  {
    var last := atts[|atts| - 1];
    if a == last {
      assert r in RoutesOfLink(c, a);
      InTimes(RoutesOfLink(c, a), DomainsOf(a)[d], r);
    } else {
      assert atts == atts[..|atts| - 1] + [last];
      AttachmentContributes(c, atts[..|atts| - 1], a, d, r);
    }
  }

  /** On a virtual host the first route that accepts a request has maximal precedence among the routes of all
      attachments to the domain that accept it. */
  lemma ServedByMaximalRoute(c: Cluster, gateway: string, port: int, atts: seq<Link>, vhs: seq<VirtualHost>,
                             vh: VirtualHost, a: Link, r: Route, re: Regexes, req: Request)
    requires ServesExactly(c, gateway, port, atts, vhs) && vh in vhs
    requires a in atts && vh.domain in DomainsOf(a) && r in Expanded(c, a.route).routes
    requires EnvoyApi.Accepts(r.routeMatch, re, req)
    ensures FirstMatch(vh.routes, re, req).Some?
    ensures !Before(r.routeMatch, FirstMatch(vh.routes, re, req).value.routeMatch)
  {
    AttachmentContributes(c, atts, a, vh.domain, r);
    assert r in multiset(vh.routes);
    FirstMatchIsMaximal(vh.routes, re, req, r);
  }

  // ----- what a listener's chain serves besides its own routes -----

  /** The attachments of one listener. */
  function OwnLinks(l: Listener, rs: seq<HTTPRoute>): seq<Link> {
    if rs == [] then [] else OwnLinks(l, rs[..|rs| - 1]) + [Link(l, rs[|rs| - 1])]
  }

  lemma {:induction false} OwnLinksFollow(ls: seq<Listener>, index: Index, i: nat, j: nat)
    requires i < |ls| && j <= |RoutesOn(ls[i], index)|
    ensures AttachmentsUpTo(ls, index, i, j) ==
              AttachmentsUpTo(ls, index, i, 0) + OwnLinks(ls[i], RoutesOn(ls[i], index)[..j])
  {
    var rs := RoutesOn(ls[i], index);
    if j > 0 {
      OwnLinksFollow(ls, index, i, j - 1);
      var front := rs[..j];
      assert front[..|front| - 1] == rs[..j - 1] && front[|front| - 1] == rs[j - 1];
      ConcatAssociative(AttachmentsUpTo(ls, index, i, 0), OwnLinks(ls[i], rs[..j - 1]), [Link(ls[i], rs[j - 1])]);
    }
  }

  lemma SplitLast<T>(a: seq<T>, b: seq<T>)
    requires b != []
    ensures a + b == (a + b[..|b| - 1]) + [b[|b| - 1]] && b == b[..|b| - 1] + [b[|b| - 1]]
  {
  }

  lemma HostRoutesEndIn(c: Cluster, front: seq<Link>, last: Link, all: seq<Link>, d: string, more: multiset<Route>)
    requires all == front + [last] && more == Times(RoutesOfLink(c, last), DomainsOf(last)[d])
    ensures HostRoutes(c, all, d) == HostRoutes(c, front, d) + more
  {
    HostRoutesOneMore(c, front, last, d);
  }

  lemma {:induction false} HostRoutesAppend(c: Cluster, a: seq<Link>, b: seq<Link>, d: string)
    ensures HostRoutes(c, a + b, d) == HostRoutes(c, a, d) + HostRoutes(c, b, d)
  {
    if b == [] {
      assert a + b == a;
    } else {
      var front, last := b[..|b| - 1], b[|b| - 1];
      HostRoutesAppend(c, a, front, d);
      SplitLast(a, b);
      var more := Times(RoutesOfLink(c, last), DomainsOf(last)[d]);
      HostRoutesEndIn(c, a + front, last, a + b, d, more);
      HostRoutesEndIn(c, front, last, b, d, more);
      Regroup(HostRoutes(c, a, d), HostRoutes(c, front, d), more);
    }
  }

  /** A domain has routes exactly when some attachment is served on it. */
  lemma HostRoutesServed(c: Cluster, atts: seq<Link>, d: string)
    ensures HostRoutes(c, atts, d) != multiset{} <==> Served(c, atts, d)
  {
    if r :| r in HostRoutes(c, atts, d) {
      var a := HostRouteOrigin(c, atts, d, r);
      assert r in RoutesOfLink(c, a);
    }
    if Served(c, atts, d) {
      var a :| a in atts && RoutesOfLink(c, a) != multiset{} && d in DomainsOf(a);
      var r :| r in RoutesOfLink(c, a);
      AttachmentContributes(c, atts, a, d, r);
    }
  }

  ghost predicate NothingServed(c: Cluster, atts: seq<Link>) { forall d :: !Served(c, atts, d) }

  /** On every domain there are the routes of own, each as often as there and no others. */
  ghost predicate SameRoutes(c: Cluster, all: seq<Link>, own: seq<Link>) {
    forall d :: HostRoutes(c, all, d) == HostRoutes(c, own, d)
  }

  lemma SameRoutesExactly(c: Cluster, before: seq<Link>, own: seq<Link>)
    ensures SameRoutes(c, before + own, own) <==> NothingServed(c, before)
  {
    forall d ensures HostRoutes(c, before + own, d) == HostRoutes(c, own, d) <==> !Served(c, before, d) {
      HostRoutesAppend(c, before, own, d);
      HostRoutesServed(c, before, d);
      OnlyNothingAddsNothing(HostRoutes(c, before, d), HostRoutes(c, own, d));
    }
  }

  lemma OnlyNothingAddsNothing(a: multiset<Route>, b: multiset<Route>)
    ensures a + b == b <==> a == multiset{}
  {
    if a != multiset{} {
      var r :| r in a;
      assert (a + b)[r] > b[r];
    }
  }

  /** The routes compile to nothing. */
  predicate Silent(c: Cluster, rs: seq<HTTPRoute>) { forall hr :: hr in rs ==> Expanded(c, hr).routes == [] }

  /** The virtual hosts of listener i list the listener's own routes once each and nothing else exactly when the routes of
      every HTTP or HTTPS listener before it on the port compile to nothing. */
  lemma NoRouteAdded(c: Cluster, ls: seq<Listener>, index: Index, i: nat)
    requires i < |ls|
    requires forall a :: a in AttachmentsUpTo(ls, index, i, 0) ==> HostnameAllows(a.listener, a.route.hostnames)
    ensures SameRoutes(c, AttachmentsUpTo(ls, index, i + 1, 0), OwnLinks(ls[i], RoutesOn(ls[i], index)))
            <==> forall k :: 0 <= k < i ==> Silent(c, RoutesOn(ls[k], index))
  {
    var rs := RoutesOn(ls[i], index);
    OwnLinksFollow(ls, index, i, |rs|);
    assert rs[..|rs|] == rs;
    SameRoutesExactly(c, AttachmentsUpTo(ls, index, i, 0), OwnLinks(ls[i], rs));
    if k :| 0 <= k < i && !Silent(c, RoutesOn(ls[k], index)) { VoiceIsServed(c, ls, index, i, k); }
    if !NothingServed(c, AttachmentsUpTo(ls, index, i, 0)) { ServedHasVoice(c, ls, index, i); }
  }

  lemma VoiceIsServed(c: Cluster, ls: seq<Listener>, index: Index, i: nat, k: nat)
    requires k < i <= |ls| && !Silent(c, RoutesOn(ls[k], index))
    requires forall a :: a in AttachmentsUpTo(ls, index, i, 0) ==> HostnameAllows(a.listener, a.route.hostnames)
    ensures !NothingServed(c, AttachmentsUpTo(ls, index, i, 0))
  {
    var hr :| hr in RoutesOn(ls[k], index) && Expanded(c, hr).routes != [];
    var a := Link(ls[k], hr);
    AttachmentsExactly(ls, index, i, 0, a);
    AcceptanceIsExposure(a.listener, hr.hostnames);
    var d :| d in DomainsOf(a);
    assert Expanded(c, hr).routes[0] in RoutesOfLink(c, a);
    assert Served(c, AttachmentsUpTo(ls, index, i, 0), d);
  }

  lemma ServedHasVoice(c: Cluster, ls: seq<Listener>, index: Index, i: nat)
    requires i <= |ls| && !NothingServed(c, AttachmentsUpTo(ls, index, i, 0))
    ensures exists k :: 0 <= k < i && !Silent(c, RoutesOn(ls[k], index))
  {
    var atts := AttachmentsUpTo(ls, index, i, 0);
    var d :| Served(c, atts, d);
    var a :| a in atts && RoutesOfLink(c, a) != multiset{} && d in DomainsOf(a);
    AttachmentsExactly(ls, index, i, 0, a);
    var k :| 0 <= k < i && ls[..i][k] == a.listener;
    assert a.route in RoutesOn(ls[k], index);
  }
}
