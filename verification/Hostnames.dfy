/** Hostname matching between listeners and routes, and the virtual-host domains it yields. */
module Hostnames {
  import opened Text
  import opened GatewayApi
  import opened Domains

  // ----- the code's rules -----

  predicate IsHostnameSubset(route: string, listener: string) {
    if route == listener then true
    else if HasPrefix(listener, "*.") then
      if HasPrefix(route, "*.") then HasSuffix(route[1..], listener[1..]) else HasSuffix(route, listener[1..])
    else if HasPrefix(route, "*.") then listener == route[2..] || HasSuffix(listener, route[1..])
    else false
  }

  /** The domain that a permitted pair contributes. */
  function MostSpecific(route: string, listener: string): string {
    if HasPrefix(route, "*") && !HasPrefix(listener, "*") then listener else route
  }

  /** The set of domains of the permitted pairs. */
  function Permitted(routeHostnames: seq<string>, host: string): set<string> {
    if routeHostnames == [] then {}
    else
      var r := routeHostnames[|routeHostnames| - 1];
      Permitted(routeHostnames[..|routeHostnames| - 1], host) +
      if IsHostnameSubset(r, host) then {MostSpecific(r, host)} else {}
  }

  lemma {:induction false} PermittedExactly(rs: seq<string>, host: string, d: string)
    ensures d in Permitted(rs, host) <==> exists r :: r in rs && IsHostnameSubset(r, host) && d == MostSpecific(r, host)
  {
    if rs != [] {
      PermittedExactly(rs[..|rs| - 1], host, d);
      assert rs == rs[..|rs| - 1] + [rs[|rs| - 1]];
    }
  }

  /** The domains of one attachment, each as often as it is listed. */
  function Intersecting(l: Listener, routeHostnames: seq<string>): multiset<string> {
    var host := HostnameOf(l);
    if host == "" then (if routeHostnames == [] then multiset{"*"} else multiset(routeHostnames))
    else if routeHostnames == [] then multiset{host}
    else multiset(Permitted(routeHostnames, host))
  }

  /** The elements of a set in some order. */
  method UnsortedList(s: set<string>) returns (list: seq<string>)
    ensures multiset(list) == multiset(s)
  {
    var rest := s;
    list := [];
    while rest != {}
      invariant rest <= s
      invariant multiset(list) == multiset(s - rest)
      decreases |rest|
    {
      var x :| x in rest;
      assert s - (rest - {x}) == (s - rest) + {x};
      list := list + [x];
      rest := rest - {x};
    }
    assert s - rest == s;
  }

  method GetIntersectingHostnames(l: Listener, routeHostnames: seq<string>) returns (names: seq<string>)
    ensures multiset(names) == Intersecting(l, routeHostnames)
  {
    if HostnameOf(l) == "" {
      return if |routeHostnames| == 0 then ["*"] else routeHostnames;
    }
    var host := HostnameOf(l);
    if |routeHostnames| == 0 {
      return [host];
    }
    var intersection: set<string> := {};
    for i := 0 to |routeHostnames|
      invariant intersection == Permitted(routeHostnames[..i], host)
    {
      var r := routeHostnames[i];
      assert routeHostnames[..i + 1][..i] == routeHostnames[..i];
      if IsHostnameSubset(r, host) {
        if HasPrefix(r, "*") && !HasPrefix(host, "*") {
          intersection := intersection + {host};
        } else {
          intersection := intersection + {r};
        }
      }
    }
    assert routeHostnames[..|routeHostnames|] == routeHostnames;
    names := UnsortedList(intersection);
  }

  predicate HostnameAllows(l: Listener, routeHostnames: seq<string>) {
    HostnameOf(l) == "" || routeHostnames == [] ||
    exists r :: r in routeHostnames && IsHostnameSubset(r, HostnameOf(l))
  }

  method IsAllowedByHostname(l: Listener, routeHostnames: seq<string>) returns (allowed: bool)
    ensures allowed == HostnameAllows(l, routeHostnames)
  {
    if HostnameOf(l) == "" || |routeHostnames| == 0 {
      return true;
    }
    for i := 0 to |routeHostnames|
      invariant forall k :: 0 <= k < i ==> !IsHostnameSubset(routeHostnames[k], HostnameOf(l))
    {
      if IsHostnameSubset(routeHostnames[i], HostnameOf(l)) {
        return true;
      }
    }
    allowed := false;
  }

  /** A listener accepts a route's hostnames exactly when some domain is left to serve them on. */
  lemma AcceptanceIsExposure(l: Listener, routeHostnames: seq<string>)
    ensures HostnameAllows(l, routeHostnames) <==> Intersecting(l, routeHostnames) != multiset{}
  {
    var host := HostnameOf(l);
    if host == "" || routeHostnames == [] {
      assert routeHostnames != [] ==> routeHostnames[0] in multiset(routeHostnames);
      assert "*" in multiset{"*"} && host in multiset{host};
    } else {
      var s := Permitted(routeHostnames, host);
      if r :| r in routeHostnames && IsHostnameSubset(r, host) {
        PermittedExactly(routeHostnames, host, MostSpecific(r, host));
        assert MostSpecific(r, host) in multiset(s);
      } else {
        forall d ensures d !in s { PermittedExactly(routeHostnames, host, d); }
        assert s == {};
      }
    }
  }

  // ----- what hostnames mean -----

  /** A hostname the API's validation admits: a name, or "*." and a name, where a name has no "*" and no leading dot. */
  predicate ValidHostname(h: string) {
    var name := if Wildcard(h) then h[2..] else h;
    name != "" && name[0] != '.' && '*' !in name
  }

  predicate ListenerCovers(l: Listener, host: string) {
    l.hostname.None? || l.hostname.value == "" || Covers(l.hostname.value, host)
  }

  predicate RouteCovers(routeHostnames: seq<string>, host: string) {
    routeHostnames == [] || exists r :: r in routeHostnames && Covers(r, host)
  }

  predicate DomainsCover(l: Listener, routeHostnames: seq<string>, host: string) {
    exists d :: d in Intersecting(l, routeHostnames) && Covers(d, host)
  }

  /** r is a wildcard strictly broader than the wildcard l. */
  predicate StrictlyBroader(r: string, l: string) {
    Wildcard(r) && Wildcard(l) && r != l && HasSuffix(l[1..], r[1..])
  }

  /** Of two suffixes of one text the shorter is a suffix of the longer. */
  lemma SuffixesNest(s: string, a: string, b: string)
    requires HasSuffix(s, a) && HasSuffix(s, b) && |a| <= |b|
    ensures HasSuffix(b, a)
  {
    assert b[|b| - |a|..] == s[|s| - |b|..][|b| - |a|..];
  }

  lemma SuffixTransitive(s: string, b: string, a: string)
    requires HasSuffix(s, b) && HasSuffix(b, a)
    ensures HasSuffix(s, a)
  {
    assert s[|s| - |a|..] == s[|s| - |b|..][|b| - |a|..];
  }

  /** What one route hostname contributes under a listener with a hostname. */
  lemma OnePairMeaning(l: string, r: string, host: string)
    requires ValidHostname(l) && ValidHostname(r)
    ensures IsHostnameSubset(r, l) && Covers(MostSpecific(r, l), host) <==>
            (Covers(l, host) && Covers(r, host) && !StrictlyBroader(r, l)) || (host == l && r == "*." + l && !Wildcard(l))
  {
    if Wildcard(l) {
      if Wildcard(r) { TwoWildcards(l, r, host); } else { NameUnderWildcard(l, r, host); }
    } else {
      assert l[0] != '*' && !HasPrefix(l, "*");
      if Wildcard(r) { WildcardOverName(l, r, host); } else { assert r[0] != '*' && !HasPrefix(r, "*"); }
    }
  }

  lemma TwoWildcards(l: string, r: string, host: string)
    requires ValidHostname(l) && ValidHostname(r) && Wildcard(l) && Wildcard(r)
    ensures IsHostnameSubset(r, l) && Covers(r, host) <==> Covers(l, host) && Covers(r, host) && !StrictlyBroader(r, l)
  {
    var ls, rs := l[1..], r[1..];
    assert l == "*" + ls && r == "*" + rs;
    if HasSuffix(host, ls) && HasSuffix(host, rs) {
      if |ls| <= |rs| { SuffixesNest(host, ls, rs); } else { SuffixesNest(host, rs, ls); }
    }
    if HasSuffix(rs, ls) && HasSuffix(host, rs) { SuffixTransitive(host, rs, ls); }
  }

  lemma NameUnderWildcard(l: string, r: string, host: string)
    requires ValidHostname(l) && ValidHostname(r) && Wildcard(l) && !Wildcard(r)
    ensures IsHostnameSubset(r, l) && Covers(r, host) <==> Covers(l, host) && Covers(r, host)
  {
    assert l[1..][0] == '.' && r[0] != '.';
    assert HasSuffix(r, l[1..]) ==> r[|r| - |l[1..]|] == '.';
  }

  lemma WildcardOverName(l: string, r: string, host: string)
    requires ValidHostname(l) && ValidHostname(r) && !Wildcard(l) && Wildcard(r)
    ensures IsHostnameSubset(r, l) && Covers(l, host) <==>
            (Covers(l, host) && Covers(r, host)) || (host == l && r == "*." + l)
  {
    assert r == "*." + r[2..];
    assert r == "*." + l <==> l == r[2..];
    assert r[1..][0] == '.' && l[0] != '.';
    assert HasSuffix(l, r[1..]) ==> l[|l| - |r[1..]|] == '.';
  }

  /** The domains cover a host exactly when the contribution of some permitted pair does. */
  lemma SomePairCovers(l: Listener, rs: seq<string>, host: string)
    requires HostnameOf(l) != "" && rs != []
    ensures DomainsCover(l, rs, host) <==>
            exists r :: r in rs && IsHostnameSubset(r, HostnameOf(l)) && Covers(MostSpecific(r, HostnameOf(l)), host)
  {
    var lh := HostnameOf(l);
    if d :| d in Intersecting(l, rs) && Covers(d, host) { PermittedExactly(rs, lh, d); }
    if r :| r in rs && IsHostnameSubset(r, lh) && Covers(MostSpecific(r, lh), host) {
      PermittedExactly(rs, lh, MostSpecific(r, lh));
      assert MostSpecific(r, lh) in Intersecting(l, rs);
    }
  }

  /** Host by host: the domains cover what listener and route both cover, except that route wildcards strictly
      broader than a listener wildcard are dropped, and the route wildcard "*.d" lets listener "d" through. */
  lemma IntersectionMeaning(l: Listener, rs: seq<string>, host: string)
    requires HostnameOf(l) == "" || ValidHostname(HostnameOf(l))
    requires forall r :: r in rs ==> ValidHostname(r)
    ensures DomainsCover(l, rs, host) <==>
            (ListenerCovers(l, host) &&
             (rs == [] || exists r :: r in rs && Covers(r, host) && !StrictlyBroader(r, HostnameOf(l))))
            || (host == HostnameOf(l) && !Wildcard(host) && "*." + host in rs)
  {
    var lh := HostnameOf(l);
    if lh == "" {
      if rs == [] {
        assert "*" in Intersecting(l, rs);
      } else {
        assert forall d :: d in Intersecting(l, rs) <==> d in rs;
        if r :| r in rs && Covers(r, host) { assert !StrictlyBroader(r, lh); }
      }
      assert "*." + "" == "*.";
      assert !ValidHostname("*.");
    } else if rs == [] {
      assert forall d :: d in Intersecting(l, rs) <==> d == lh;
    } else {
      SomePairCovers(l, rs, host);
      forall r | r in rs
        ensures IsHostnameSubset(r, lh) && Covers(MostSpecific(r, lh), host) <==>
          (Covers(lh, host) && Covers(r, host) && !StrictlyBroader(r, lh)) || (host == lh && r == "*." + lh && !Wildcard(lh))
      {
        OnePairMeaning(lh, r, host);
      }
    }
  }

  // ----- when the intersection is exact -----

  ghost predicate ExactIntersection(l: Listener, rs: seq<string>) {
    forall host :: DomainsCover(l, rs, host) <==> ListenerCovers(l, host) && RouteCovers(rs, host)
  }

  /** The listener's name is let in by its own wildcard although no route hostname covers it. */
  predicate ParentDomainLeak(l: Listener, rs: seq<string>) {
    var host := HostnameOf(l);
    host != "" && !Wildcard(host) && "*." + host in rs && !RouteCovers(rs, host)
  }

  /** A route hostname broader than the listener's wildcard is dropped and the wildcard itself is not listed. */
  predicate BroaderDropped(l: Listener, rs: seq<string>) {
    var host := HostnameOf(l);
    host !in rs && exists r :: r in rs && StrictlyBroader(r, host)
  }

  function MaxLength(rs: seq<string>): (n: nat)
    ensures forall r :: r in rs ==> |r| <= n
  {
    if rs == [] then 0
    else var n := MaxLength(rs[1..]); if |rs[0]| > n then |rs[0]| else n
  }

  /** A wildcard that covers a host whose first label is longer than the wildcard is the listener's or broader. */
  lemma OnlyBroaderCover(lh: string, r: string, n: nat, host: string)
    requires Wildcard(lh) && ValidHostname(lh) && ValidHostname(r) && |r| < n
    requires host == seq(n, _ => 'a') + lh[1..] && Covers(r, host)
    ensures Wildcard(r) && |r| <= |lh| && HasSuffix(lh[1..], r[1..])
  {
    assert |host| > |r| && Wildcard(r);
    var k := |host| - |r[1..]|;
    assert host[k] == host[k..][0] == '.';
    assert forall i :: 0 <= i < n ==> host[i] == 'a';
    assert host[n..] == lh[1..];
    SuffixesNest(host, r[1..], lh[1..]);
  }

  /** A host under the listener's wildcard that no narrower route hostname covers: one very long extra label. */
  lemma BroaderDroppedHost(l: Listener, rs: seq<string>) returns (host: string)
    requires ValidHostname(HostnameOf(l)) && forall r :: r in rs ==> ValidHostname(r)
    requires BroaderDropped(l, rs)
    ensures ListenerCovers(l, host) && RouteCovers(rs, host) && !DomainsCover(l, rs, host)
  {
    var lh, n := HostnameOf(l), MaxLength(rs) + 1;
    host := seq(n, _ => 'a') + lh[1..];
    assert host[n..] == lh[1..];
    var broad :| broad in rs && StrictlyBroader(broad, lh);
    SuffixTransitive(host, lh[1..], broad[1..]);
    assert Covers(broad, host);
    forall r | r in rs && Covers(r, host) ensures StrictlyBroader(r, lh) {
      OnlyBroaderCover(lh, r, n, host);
    }
    IntersectionMeaning(l, rs, host);
  }

  /** The domains are exactly the intersection of listener and route, except in these two cases. */
  lemma IntersectionExactly(l: Listener, rs: seq<string>)
    requires HostnameOf(l) == "" || ValidHostname(HostnameOf(l))
    requires forall r :: r in rs ==> ValidHostname(r)
    ensures ExactIntersection(l, rs) <==> !ParentDomainLeak(l, rs) && !BroaderDropped(l, rs)
  {
    var lh := HostnameOf(l);
    if ParentDomainLeak(l, rs) {
      IntersectionMeaning(l, rs, lh);
      assert DomainsCover(l, rs, lh) && !RouteCovers(rs, lh);
    } else if BroaderDropped(l, rs) {
      var host := BroaderDroppedHost(l, rs);
    } else {
      forall host ensures DomainsCover(l, rs, host) <==> ListenerCovers(l, host) && RouteCovers(rs, host) {
        IntersectionMeaning(l, rs, host);
        if lh in rs && Wildcard(lh) { assert !StrictlyBroader(lh, lh); }
      }
    }
  }
}
