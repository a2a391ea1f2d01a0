/** Conflicts among the listeners of a Gateway that share a port. */
module ListenerConflicts {
  import opened Text
  import opened GatewayApi
  import opened Sorting

  predicate Datagram(l: Listener) { l.protocol == TCP || l.protocol == UDP }

  predicate ByHostname(l: Listener) { l.protocol == HTTP || l.protocol == HTTPS || l.protocol == TLS }

  // ----- grouping by port -----

  /** The listeners on one port, in order. */
  function OnPort(ls: seq<Listener>, port: int32): seq<Listener> {
    if ls == [] then []
    else OnPort(ls[..|ls| - 1], port) + if ls[|ls| - 1].port == port then [ls[|ls| - 1]] else []
  }

  lemma {:induction false} OnPortExactly(ls: seq<Listener>, port: int32, l: Listener)
    ensures l in OnPort(ls, port) <==> l in ls && l.port == port
  {
    if ls != [] {
      OnPortExactly(ls[..|ls| - 1], port, l);
      assert ls == ls[..|ls| - 1] + [ls[|ls| - 1]];
    }
  }

  ghost predicate Groups(ls: seq<Listener>, byPort: map<int32, seq<Listener>>) {
    forall p {:trigger OnPort(ls, p)} ::
      (if p in byPort then byPort[p] else []) == OnPort(ls, p) && (p in byPort ==> byPort[p] != [])
  }

  lemma GroupsOneMore(ls: seq<Listener>, byPort: map<int32, seq<Listener>>, l: Listener)
    requires Groups(ls, byPort)
    ensures Groups(ls + [l], byPort[l.port := (if l.port in byPort then byPort[l.port] else []) + [l]])
  {
    var ls' := ls + [l];
    assert ls'[..|ls|] == ls;
    var byPort' := byPort[l.port := (if l.port in byPort then byPort[l.port] else []) + [l]];
    forall p: int32
      ensures (if p in byPort' then byPort'[p] else []) == OnPort(ls', p) && (p in byPort' ==> byPort'[p] != [])
    {
      assert OnPort(ls', p) == OnPort(ls, p) + if l.port == p then [l] else [];
    }
  }

  method GroupByPort(ls: seq<Listener>) returns (byPort: map<int32, seq<Listener>>)
    ensures Groups(ls, byPort)
  {
    byPort := map[];
    for i := 0 to |ls|
      invariant Groups(ls[..i], byPort)
    {
      var l := ls[i];
      assert ls[..i + 1] == ls[..i] + [l];
      GroupsOneMore(ls[..i], byPort, l);
      byPort := byPort[l.port := (if l.port in byPort then byPort[l.port] else []) + [l]];
    }
    assert ls[..|ls|] == ls;
  }

  // ----- conditions by listener name -----

  type Conditions = map<string, seq<Condition>>

  function ConditionsOf(m: Conditions, name: string): seq<Condition> { if name in m then m[name] else [] }

  /** The Conflicted condition a listener name has. */
  function ConflictOf(m: Conditions, name: string): Option<Condition> { FindCondition(ConditionsOf(m, name), Conflicted) }

  function SetListenerCondition(m: Conditions, name: string, c: Condition): (r: Conditions)
    ensures r.Keys == m.Keys + {name}
    ensures c.kind == Conflicted ==>
              forall n :: ConflictOf(r, n) == if n == name then Some(c) else ConflictOf(m, n)
  {
    m[name := SetStatusCondition(ConditionsOf(m, name), c)]
  }

  function ConflictFor(reason: Reason): Condition { Condition(Conflicted, ConditionTrue, reason) }

  // ----- one port -----

  predicate Mixed(on: seq<Listener>) {
    (exists l :: l in on && Datagram(l)) && exists l :: l in on && ByHostname(l)
  }

  /** How many listeners of the port are told apart by hostname and have this one. */
  function Sharing(on: seq<Listener>, hostname: string): nat {
    if on == [] then 0
    else
      var l := on[|on| - 1];
      Sharing(on[..|on| - 1], hostname) + if ByHostname(l) && HostnameOf(l) == hostname then 1 else 0
  }

  lemma {:induction false} SharingPositive(on: seq<Listener>, hostname: string)
    ensures Sharing(on, hostname) >= 1 <==> exists l :: l in on && ByHostname(l) && HostnameOf(l) == hostname
  {
    if on != [] {
      SharingPositive(on[..|on| - 1], hostname);
      assert on == on[..|on| - 1] + [on[|on| - 1]];
    }
  }

  /** Two listeners with one hostname count twice. */
  lemma {:induction false} SharingFound(on: seq<Listener>, i: nat, j: nat)
    requires i < j < |on| && ByHostname(on[i]) && ByHostname(on[j]) && HostnameOf(on[i]) == HostnameOf(on[j])
    ensures Sharing(on, HostnameOf(on[i])) >= 2
  {
    var front := on[..|on| - 1];
    if j < |front| {
      SharingFound(front, i, j);
    } else {
      SharingPositive(front, HostnameOf(on[i]));
      assert front[i] in front;
    }
  }

  /** The listener called name shares its hostname with another one of the port. */
  predicate SharesHostname(on: seq<Listener>, name: string) {
    exists l :: l in on && l.name == name && ByHostname(l) && Sharing(on, HostnameOf(l)) >= 2
  }

  predicate ConflictedOn(on: seq<Listener>, name: string) {
    if Mixed(on) then exists l :: l in on && l.name == name else SharesHostname(on, name)
  }

  function ReasonOn(on: seq<Listener>): Reason {
    if Mixed(on) then ReasonProtocolConflict else ReasonHostnameConflict
  }

  method CheckPort(on: seq<Listener>, conditions: Conditions) returns (r: Conditions)
    ensures conditions.Keys <= r.Keys
    ensures forall n :: ConflictOf(r, n) ==
                        if ConflictedOn(on, n) then Some(ConflictFor(ReasonOn(on))) else ConflictOf(conditions, n)
  {
    r := conditions;
    var hasTCP, hasHTTPTLS := false, false;
    for i := 0 to |on|
      invariant hasTCP == exists l :: l in on[..i] && Datagram(l)
      invariant hasHTTPTLS == exists l :: l in on[..i] && ByHostname(l)
    {
      assert on[..i + 1] == on[..i] + [on[i]];
      if Datagram(on[i]) { hasTCP := true; }
      if ByHostname(on[i]) { hasHTTPTLS := true; }
    }
    assert on[..|on|] == on;
    if hasTCP && hasHTTPTLS {
      for i := 0 to |on|
        invariant conditions.Keys <= r.Keys
        invariant forall n :: ConflictOf(r, n) ==
                    if exists l :: l in on[..i] && l.name == n then Some(ConflictFor(ReasonProtocolConflict))
                    else ConflictOf(conditions, n)
      {
        assert on[..i + 1] == on[..i] + [on[i]];
        r := SetListenerCondition(r, on[i].name, ConflictFor(ReasonProtocolConflict));
      }
      return;
    }
    r := CheckHostnames(on, conditions);
  }

  /** seen maps every hostname met to the first listener that has it. */
  ghost predicate Seen(on: seq<Listener>, seen: map<string, string>) {
    forall h :: SeenFor(on, seen, h)
  }

  ghost predicate SeenFor(on: seq<Listener>, seen: map<string, string>, h: string) {
    && (h in seen <==> Sharing(on, h) >= 1)
    && (h in seen ==> exists l :: l in on && l.name == seen[h] && ByHostname(l) && HostnameOf(l) == h)
    && (Sharing(on, h) == 1 ==> forall l :: l in on && ByHostname(l) && HostnameOf(l) == h ==> l.name == seen[h])
  }

  method CheckHostnames(on: seq<Listener>, conditions: Conditions) returns (r: Conditions)
    ensures conditions.Keys <= r.Keys
    ensures forall n :: ConflictOf(r, n) ==
                        if SharesHostname(on, n) then Some(ConflictFor(ReasonHostnameConflict))
                        else ConflictOf(conditions, n)
  {
    r := conditions;
    var seen: map<string, string> := map[];
    for i := 0 to |on|
      invariant conditions.Keys <= r.Keys
      invariant Seen(on[..i], seen)
      invariant forall n :: ConflictOf(r, n) ==
                  if SharesHostname(on[..i], n) then Some(ConflictFor(ReasonHostnameConflict)) else ConflictOf(conditions, n)
    {
      var l := on[i];
      var h := HostnameOf(l);
      SeenOneMore(on, i, seen);
      forall n { SharesOneMore(on, i, seen, n); }
      if ByHostname(l) {
        if h in seen {
          r := SetListenerCondition(r, l.name, ConflictFor(ReasonHostnameConflict));
          r := SetListenerCondition(r, seen[h], ConflictFor(ReasonHostnameConflict));
        } else {
          seen := seen[h := l.name];
        }
      }
    }
    assert on[..|on|] == on;
  }

  lemma SharingOneMore(on: seq<Listener>, i: nat)
    requires i < |on|
    ensures on[..i + 1] == on[..i] + [on[i]]
    ensures forall h :: Sharing(on[..i + 1], h) ==
                        Sharing(on[..i], h) + if ByHostname(on[i]) && HostnameOf(on[i]) == h then 1 else 0
    ensures forall l :: l in on[..i] && ByHostname(l) ==> Sharing(on[..i], HostnameOf(l)) >= 1
  {
    assert on[..i + 1][..i] == on[..i];
    forall l | l in on[..i] && ByHostname(l) ensures Sharing(on[..i], HostnameOf(l)) >= 1 {
      SharingPositive(on[..i], HostnameOf(l));
    }
  }

  lemma SeenOneMore(on: seq<Listener>, i: nat, seen: map<string, string>)
    requires i < |on| && Seen(on[..i], seen)
    ensures var h := HostnameOf(on[i]);
      Seen(on[..i + 1], if ByHostname(on[i]) && h !in seen then seen[h := on[i].name] else seen)
  {
    var l, h := on[i], HostnameOf(on[i]);
    var seen' := if ByHostname(l) && h !in seen then seen[h := l.name] else seen;
    var after := on[..i + 1];
    forall x ensures SeenFor(after, seen', x) {
      assert SeenFor(on[..i], seen, x);
      SeenForOneMore(on, i, seen, x);
    }
  }

  lemma SeenForOneMore(on: seq<Listener>, i: nat, seen: map<string, string>, x: string)
    requires i < |on| && SeenFor(on[..i], seen, x)
    ensures var h := HostnameOf(on[i]);
      SeenFor(on[..i + 1], if ByHostname(on[i]) && h !in seen then seen[h := on[i].name] else seen, x)
  {
    var before, after, l := on[..i], on[..i + 1], on[i];
    SharingOneMore(on, i);
    if x in seen {
      var m :| m in before && m.name == seen[x] && ByHostname(m) && HostnameOf(m) == x;
      assert m in after;
    } else {
      assert l in after;
    }
  }

  /** How hostname conflicts grow by one listener: it and the first listener with its hostname join. */
  lemma SharesOneMore(on: seq<Listener>, i: nat, seen: map<string, string>, n: string)
    requires i < |on| && Seen(on[..i], seen)
    ensures var l, h := on[i], HostnameOf(on[i]);
      SharesHostname(on[..i + 1], n) <==>
      SharesHostname(on[..i], n) || (ByHostname(l) && h in seen && (n == l.name || n == seen[h]))
  {
    SharesStays(on, i, seen, n);
    if SharesHostname(on[..i + 1], n) { SharesComes(on, i, seen, n); }
  }

  lemma SharesStays(on: seq<Listener>, i: nat, seen: map<string, string>, n: string)
    requires i < |on| && Seen(on[..i], seen)
    ensures var l, h := on[i], HostnameOf(on[i]);
      SharesHostname(on[..i], n) || (ByHostname(l) && h in seen && (n == l.name || n == seen[h])) ==>
      SharesHostname(on[..i + 1], n)
  {
    var before, after, l, h := on[..i], on[..i + 1], on[i], HostnameOf(on[i]);
    SharingOneMore(on, i);
    if SharesHostname(before, n) {
      var m :| m in before && m.name == n && ByHostname(m) && Sharing(before, HostnameOf(m)) >= 2;
      assert m in after;
    }
    if ByHostname(l) && h in seen {
      assert SeenFor(before, seen, h);
      var m :| m in before && m.name == seen[h] && ByHostname(m) && HostnameOf(m) == h;
      assert m in after && l in after;
    }
  }

  lemma SharesComes(on: seq<Listener>, i: nat, seen: map<string, string>, n: string)
    requires i < |on| && Seen(on[..i], seen) && SharesHostname(on[..i + 1], n)
    ensures var l, h := on[i], HostnameOf(on[i]);
      SharesHostname(on[..i], n) || (ByHostname(l) && h in seen && (n == l.name || n == seen[h]))
  {
    var before, after, l := on[..i], on[..i + 1], on[i];
    SharingOneMore(on, i);
    var m :| m in after && m.name == n && ByHostname(m) && Sharing(after, HostnameOf(m)) >= 2;
    assert SeenFor(before, seen, HostnameOf(m));
    if m in before {
      assert Sharing(before, HostnameOf(m)) >= 1;
      if Sharing(before, HostnameOf(m)) >= 2 { assert SharesHostname(before, n); }
    } else {
      assert m == l;
    }
  }

  // ----- the whole Gateway -----

  /** HTTP, HTTPS and TLS listeners are told apart by hostname. */
  predicate ToldApart(l: Listener) {
    match l.protocol case HTTP => true case HTTPS => true case TLS => true case _ => false
  }

  /** Both have the same hostname, or both have none; the empty one counts as none. */
  predicate SameHostname(a: Listener, b: Listener) {
    && a.port == b.port && ToldApart(a) && ToldApart(b)
    && (a.hostname == b.hostname || (a.hostname in {None, Some("")} && b.hostname in {None, Some("")}))
  }

  predicate PortMixed(ls: seq<Listener>, port: int32) {
    && (exists a :: a in ls && a.port == port && (a.protocol == TCP || a.protocol == UDP))
    && exists b :: b in ls && b.port == port && ToldApart(b)
  }

  /** The Gateway API's rule for listener i: its port mixes TCP/UDP with HTTP/HTTPS/TLS, or another listener that is
      told apart by hostname has its port and hostname. */
  predicate InConflict(ls: seq<Listener>, i: nat)
    requires i < |ls|
  {
    PortMixed(ls, ls[i].port) || exists j :: 0 <= j < |ls| && j != i && SameHostname(ls[i], ls[j])
  }

  ghost predicate NameInConflict(ls: seq<Listener>, name: string) {
    exists i :: 0 <= i < |ls| && ls[i].name == name && InConflict(ls, i)
  }

  lemma MixedOnPort(ls: seq<Listener>, port: int32)
    ensures Mixed(OnPort(ls, port)) <==> PortMixed(ls, port)
  {
    forall l { OnPortExactly(ls, port, l); }
  }

  predicate Qualifies(l: Listener, port: int32, hostname: string) {
    l.port == port && ByHostname(l) && HostnameOf(l) == hostname
  }

  predicate BothQualify(ls: seq<Listener>, i: nat, j: nat, port: int32, hostname: string)
    requires i < |ls| && j < |ls|
  {
    Qualifies(ls[i], port, hostname) && Qualifies(ls[j], port, hostname)
  }

  ghost predicate PairSharing(ls: seq<Listener>, port: int32, hostname: string) {
    exists i, j :: 0 <= i < j < |ls| && BothQualify(ls, i, j, port, hostname)
  }

  lemma PairSharingStep(ls: seq<Listener>, port: int32, hostname: string)
    requires ls != []
    ensures var front, last := ls[..|ls| - 1], ls[|ls| - 1];
      PairSharing(ls, port, hostname) <==>
      PairSharing(front, port, hostname) ||
      (Qualifies(last, port, hostname) && exists l :: l in front && Qualifies(l, port, hostname))
  {
    var front, last := ls[..|ls| - 1], ls[|ls| - 1];
    if i, j :| 0 <= i < j < |front| && BothQualify(front, i, j, port, hostname) {
      assert BothQualify(ls, i, j, port, hostname);
    }
    if l :| Qualifies(last, port, hostname) && l in front && Qualifies(l, port, hostname) {
      var i :| 0 <= i < |front| && front[i] == l;
      assert BothQualify(ls, i, |ls| - 1, port, hostname);
    }
    if i, j :| 0 <= i < j < |ls| && BothQualify(ls, i, j, port, hostname) {
      assert front[i] in front && Qualifies(front[i], port, hostname);
      if j < |front| { assert BothQualify(front, i, j, port, hostname); }
    }
  }

  /** Two listeners share a hostname on a port exactly when the count says so. */
  lemma {:induction false} SharingTwice(ls: seq<Listener>, port: int32, hostname: string)
    ensures Sharing(OnPort(ls, port), hostname) >= 2 <==> PairSharing(ls, port, hostname)
  {
    if ls != [] {
      var front, last := ls[..|ls| - 1], ls[|ls| - 1];
      var on, before := OnPort(ls, port), OnPort(front, port);
      if last.port == port {
        assert on[..|on| - 1] == before && on[|on| - 1] == last;
      } else {
        assert on == before;
      }
      assert Sharing(on, hostname) == Sharing(before, hostname) + if Qualifies(last, port, hostname) then 1 else 0;
      PairSharingStep(ls, port, hostname);
      SharingTwice(front, port, hostname);
      QualifyingOnPort(front, port, hostname);
    }
  }

  lemma QualifyingOnPort(ls: seq<Listener>, port: int32, hostname: string)
    ensures Sharing(OnPort(ls, port), hostname) >= 1 <==> exists l :: l in ls && Qualifies(l, port, hostname)
  {
    SharingPositive(OnPort(ls, port), hostname);
    forall l { OnPortExactly(ls, port, l); }
  }

  /** Some listener of the port with this name is in conflict. */
  ghost predicate NameConflictsOn(ls: seq<Listener>, port: int32, name: string) {
    exists i :: 0 <= i < |ls| && ls[i].port == port && ls[i].name == name && InConflict(ls, i)
  }

  lemma SharingConflicts(ls: seq<Listener>, port: int32, k: nat)
    requires k < |ls| && ls[k].port == port && ByHostname(ls[k])
    requires Sharing(OnPort(ls, port), HostnameOf(ls[k])) >= 2
    ensures InConflict(ls, k)
  {
    SharingTwice(ls, port, HostnameOf(ls[k]));
    var i, j :| 0 <= i < j < |ls| && BothQualify(ls, i, j, port, HostnameOf(ls[k]));
    assert SameHostname(ls[k], ls[i]) && SameHostname(ls[k], ls[j]);
  }

  lemma ConflictShares(ls: seq<Listener>, port: int32, i: nat, j: nat)
    requires i < |ls| && ls[i].port == port && j < |ls| && j != i && SameHostname(ls[i], ls[j])
    ensures Sharing(OnPort(ls, port), HostnameOf(ls[i])) >= 2
  {
    SharingTwice(ls, port, HostnameOf(ls[i]));
    assert BothQualify(ls, i, j, port, HostnameOf(ls[i])) && BothQualify(ls, j, i, port, HostnameOf(ls[i]));
  }

  lemma FoundConflicts(ls: seq<Listener>, port: int32, name: string)
    requires ConflictedOn(OnPort(ls, port), name)
    ensures NameConflictsOn(ls, port, name)
  {
    var on := OnPort(ls, port);
    MixedOnPort(ls, port);
    var l :| l in on && l.name == name && (Mixed(on) || (ByHostname(l) && Sharing(on, HostnameOf(l)) >= 2));
    OnPortExactly(ls, port, l);
    var k :| 0 <= k < |ls| && ls[k] == l;
    if !Mixed(on) { SharingConflicts(ls, port, k); }
  }

  /** The check of one port finds exactly the listeners of that port that are in conflict. */
  lemma PortCheckExactly(ls: seq<Listener>, port: int32, name: string)
    ensures ConflictedOn(OnPort(ls, port), name) <==> NameConflictsOn(ls, port, name)
  {
    if ConflictedOn(OnPort(ls, port), name) { FoundConflicts(ls, port, name); }
    if i :| 0 <= i < |ls| && ls[i].port == port && ls[i].name == name && InConflict(ls, i) {
      var on := OnPort(ls, port);
      MixedOnPort(ls, port);
      OnPortExactly(ls, port, ls[i]);
      if !Mixed(on) {
        var j :| 0 <= j < |ls| && j != i && SameHostname(ls[i], ls[j]);
        ConflictShares(ls, port, i, j);
      }
    }
  }

  ghost predicate ReasonFits(ls: seq<Listener>, name: string, c: Condition) {
    exists i :: 0 <= i < |ls| && ls[i].name == name && InConflict(ls, i) &&
      c == ConflictFor(if PortMixed(ls, ls[i].port) then ReasonProtocolConflict else ReasonHostnameConflict)
  }

  /** The ports done so far have left exactly the conflicts they have. */
  ghost predicate Checked(ls: seq<Listener>, done: set<int32>, conditions: Conditions) {
    && (forall n {:trigger ConflictOf(conditions, n)} :: ConflictOf(conditions, n).Some? <==>
          exists p :: p in done && ConflictedOn(OnPort(ls, p), n))
    && (forall n {:trigger ConflictOf(conditions, n)} :: ConflictOf(conditions, n).Some? ==>
          ReasonFits(ls, n, ConflictOf(conditions, n).value))
  }

  lemma CheckedOneMore(ls: seq<Listener>, done: set<int32>, p: int32, before: Conditions, after: Conditions)
    requires Checked(ls, done, before)
    requires forall n :: ConflictOf(after, n) == if ConflictedOn(OnPort(ls, p), n)
                                                 then Some(ConflictFor(ReasonOn(OnPort(ls, p)))) else ConflictOf(before, n)
    ensures Checked(ls, done + {p}, after)
  {
    forall n ensures ConflictOf(after, n).Some? ==> ReasonFits(ls, n, ConflictOf(after, n).value)
             ensures ConflictOf(after, n).Some? <==> exists q :: q in done + {p} && ConflictedOn(OnPort(ls, q), n)
    {
      PortCheckExactly(ls, p, n);
      MixedOnPort(ls, p);
      assert ConflictOf(before, n).Some? <==> exists q :: q in done && ConflictedOn(OnPort(ls, q), n);
    }
  }

  /** A name is in conflict exactly when the check of some port finds it. */
  lemma FoundOnSomePort(ls: seq<Listener>, byPort: map<int32, seq<Listener>>, n: string)
    requires Groups(ls, byPort)
    ensures NameInConflict(ls, n) <==> exists p :: p in byPort.Keys && ConflictedOn(OnPort(ls, p), n)
  {
    if p :| p in byPort.Keys && ConflictedOn(OnPort(ls, p), n) {
      PortCheckExactly(ls, p, n);
    }
    if i :| 0 <= i < |ls| && ls[i].name == n && InConflict(ls, i) {
      PortCheckExactly(ls, ls[i].port, n);
      OnPortExactly(ls, ls[i].port, ls[i]);
      assert ls[i].port in byPort.Keys;
    }
  }

  /** The conditions report exactly the names in conflict, each with the reason of a listener of that name. */
  ghost predicate ReportsConflicts(ls: seq<Listener>, conditions: Conditions) {
    forall n {:trigger ConflictOf(conditions, n)} {:trigger NameInConflict(ls, n)} ::
      (IsStatusConditionTrue(ConditionsOf(conditions, n), Conflicted) <==> NameInConflict(ls, n)) &&
      (ConflictOf(conditions, n).Some? ==> ReasonFits(ls, n, ConflictOf(conditions, n).value))
  }

  lemma CheckedReports(ls: seq<Listener>, byPort: map<int32, seq<Listener>>, conditions: Conditions)
    requires Groups(ls, byPort) && Checked(ls, byPort.Keys, conditions)
    ensures ReportsConflicts(ls, conditions)
  {
    forall n ensures IsStatusConditionTrue(ConditionsOf(conditions, n), Conflicted) <==> NameInConflict(ls, n) {
      FoundOnSomePort(ls, byPort, n);
      assert ConflictOf(conditions, n).Some? <==> NameInConflict(ls, n);
      if ConflictOf(conditions, n).Some? { assert ReasonFits(ls, n, ConflictOf(conditions, n).value); }
    }
  }

  /** A listener name ends Conflicted=True exactly when a listener of that name is in conflict, with the reason of
      such a listener; whatever the order in which the ports are visited. */
  method ValidateListenerConflicts(ls: seq<Listener>) returns (conditions: Conditions)
    ensures forall l :: l in ls ==> l.name in conditions
    ensures ReportsConflicts(ls, conditions)
  {
    conditions := map[];
    for i := 0 to |ls|
      invariant forall k :: 0 <= k < i ==> ls[k].name in conditions
      invariant forall n :: n in conditions ==> conditions[n] == []
    {
      conditions := conditions[ls[i].name := []];
    }
    var byPort := GroupByPort(ls);
    ghost var names, done: set<int32> := conditions.Keys, {};
    assert Checked(ls, {}, conditions);
    var rest := byPort.Keys;
    while rest != {}
      invariant names <= conditions.Keys
      invariant done !! rest && done + rest == byPort.Keys
      invariant Checked(ls, done, conditions)
      decreases |rest|
    {
      var p :| p in rest;
      var next := CheckPort(byPort[p], conditions);
      CheckedOneMore(ls, done, p, conditions, next);
      conditions, rest, done := next, rest - {p}, done + {p};
    }
    CheckedReports(ls, byPort, conditions);
  }

  /** Which names are in conflict does not depend on the order of the listeners. */
  lemma ConflictsIgnoreOrder(ls: seq<Listener>, other: seq<Listener>, name: string)
    requires multiset(ls) == multiset(other)
    ensures NameInConflict(ls, name) <==> NameInConflict(other, name)
  {
    ConflictSurvivesReordering(ls, other, name);
    ConflictSurvivesReordering(other, ls, name);
  }

  lemma ConflictSurvivesReordering(ls: seq<Listener>, other: seq<Listener>, name: string)
    requires multiset(ls) == multiset(other)
    ensures NameInConflict(ls, name) ==> NameInConflict(other, name)
  {
    if !NameInConflict(ls, name) { return; }
    var i :| 0 <= i < |ls| && ls[i].name == name && InConflict(ls, i);
    assert forall l :: l in ls <==> l in multiset(ls);
    assert forall l :: l in other <==> l in multiset(other);
    assert ls[i] in other;
    if PortMixed(ls, ls[i].port) {
      var k :| 0 <= k < |other| && other[k] == ls[i];
      assert PortMixed(other, other[k].port);
    } else {
      var j :| 0 <= j < |ls| && j != i && SameHostname(ls[i], ls[j]);
      if ls[j] == ls[i] {
        assert multiset(ls)[ls[i]] >= 2 by { MetTwice(ls, i, j); }
        var x, y := TwiceInSequence(other, ls[i]);
        assert SameHostname(other[x], other[y]);
      } else {
        assert ls[j] in other;
        var k, m :| 0 <= k < |other| && other[k] == ls[i] && 0 <= m < |other| && other[m] == ls[j];
        assert SameHostname(other[k], other[m]);
      }
    }
  }

  lemma MetTwice(ls: seq<Listener>, i: nat, j: nat)
    requires i < |ls| && j < |ls| && i != j && ls[i] == ls[j]
    ensures multiset(ls)[ls[i]] >= 2
  {
    var a, b := if i < j then i else j, if i < j then j else i;
    assert ls == ls[..b] + [ls[b]] + ls[b + 1..];
    assert ls[..b][a] == ls[i];
  }
}
