/** What the compiled form of an HTTPRoute preserves: routing, precedence, names, conditions and cluster references. */
module RouteProperties {
  import opened Text
  import opened GatewayApi
  import opened EnvoyApi
  import opened Names
  import opened RouteMatching
  import opened Sorting
  import opened Precedence
  import opened Backends
  import opened RouteTranslation

  // ----- where routes, backends and the condition come from -----

  predicate IsPair(hr: HTTPRoute, i: nat, j: nat) { i < |hr.rules| && j < |MatchesOf(hr.rules[i])| }

  predicate IsPosition(hr: HTTPRoute, i: nat, j: nat) {
    i <= |hr.rules| && (j == 0 || (i < |hr.rules| && j <= |MatchesOf(hr.rules[i])|))
  }

  /** Pair (a, b) is visited before position (i, j). */
  predicate Earlier(a: nat, b: nat, i: nat, j: nat) { a < i || (a == i && b < j) }

  function MatchAt(hr: HTTPRoute, i: nat, j: nat): HTTPRouteMatch
    requires IsPair(hr, i, j)
  {
    MatchesOf(hr.rules[i])[j]
  }

  lemma {:induction false} RouteOrigin(c: Cluster, hr: HTTPRoute, i: nat, j: nat, r: Route) returns (a: nat, b: nat)
    requires IsPosition(hr, i, j) && r in UpTo(c, hr, i, j).routes
    ensures IsPair(hr, a, b) && Earlier(a, b, i, j) && Compiled(c, hr, a, b).route == Some(r)
    decreases i, j
  {
    if j > 0 {
      if r in UpTo(c, hr, i, j - 1).routes {
        a, b := RouteOrigin(c, hr, i, j - 1, r);
      } else {
        a, b := i, j - 1;
      }
    } else if i > 0 {
      a, b := RouteOrigin(c, hr, i - 1, |MatchesOf(hr.rules[i - 1])|, r);
    }
  }

  /** The translation has everything that one pair yields. */
  predicate Includes(t: Translation, o: Outcome) {
    && (o.route.Some? ==> o.route.value in t.routes)
    && (forall x :: x in o.backends ==> x in t.backends)
    && (o.failure.Some? ==> t.condition.status == ConditionFalse)
  }

  lemma AppendIncludes(t: Translation, o: Outcome, p: Outcome, t': Translation)
    requires t' == Append(t, o) && (p == o || Includes(t, p))
    ensures Includes(t', p)
  {
  }

  /** Everything a pair yields is in what the pairs up to a later position yield. */
  lemma {:induction false} PairIncluded(c: Cluster, hr: HTTPRoute, i: nat, j: nat, a: nat, b: nat)
    requires IsPosition(hr, i, j) && IsPair(hr, a, b) && Earlier(a, b, i, j)
    ensures Includes(UpTo(c, hr, i, j), Compiled(c, hr, a, b))
    decreases i, j
  {
    if j > 0 {
      if !(a == i && b == j - 1) { PairIncluded(c, hr, i, j - 1, a, b); }
      AppendIncludes(UpTo(c, hr, i, j - 1), Compiled(c, hr, i, j - 1), Compiled(c, hr, a, b), UpTo(c, hr, i, j));
    } else {
      PairIncluded(c, hr, i - 1, |MatchesOf(hr.rules[i - 1])|, a, b);
    }
  }

  // ----- rule expansion accounting -----

  function Untranslatable(ms: seq<HTTPRouteMatch>): nat {
    if ms == [] then 0
    else Untranslatable(ms[..|ms| - 1]) + if Translatable(ms[|ms| - 1]) then 0 else 1
  }

  /** One route per match, or one for a rule without matches, less the matches that are rejected. */
  function ExpectedRoutes(rules: seq<HTTPRouteRule>): int {
    if rules == [] then 0
    else
      var last := rules[|rules| - 1];
      ExpectedRoutes(rules[..|rules| - 1]) +
      (if |last.matches| == 0 then 1 else |last.matches|) - Untranslatable(last.matches)
  }

  /** A pair adds one route, unless its match is rejected. */
  lemma CountOneMore(c: Cluster, hr: HTTPRoute, i: nat, j: nat)
    requires IsPair(hr, i, j)
    ensures var ms := MatchesOf(hr.rules[i]);
      |UpTo(c, hr, i, j + 1).routes| - |UpTo(c, hr, i, j).routes| ==
      1 - (Untranslatable(ms[..j + 1]) - Untranslatable(ms[..j]))
  {
    var ms := MatchesOf(hr.rules[i]);
    assert ms[..j + 1][..j] == ms[..j];
    assert Compiled(c, hr, i, j).route.Some? <==> Translatable(ms[j]);
  }

  /** A rule without matches counts for one route. */
  lemma ExpectedOneMore(rules: seq<HTTPRouteRule>, i: nat)
    requires i < |rules|
    ensures ExpectedRoutes(rules[..i + 1]) ==
              ExpectedRoutes(rules[..i]) + |MatchesOf(rules[i])| - Untranslatable(MatchesOf(rules[i]))
  {
    assert rules[..i + 1][..i] == rules[..i];
    if rules[i].matches == [] { assert Translatable(MATCH_ALL) && [MATCH_ALL][..0] == []; }
  }

  lemma {:induction false} CountUpTo(c: Cluster, hr: HTTPRoute, i: nat, j: nat)
    requires IsPosition(hr, i, j)
    ensures |UpTo(c, hr, i, j).routes| ==
              ExpectedRoutes(hr.rules[..i]) + (if j == 0 then 0 else j - Untranslatable(MatchesOf(hr.rules[i])[..j]))
    decreases i, j
  {
    if j > 0 {
      CountUpTo(c, hr, i, j - 1);
      CountOneMore(c, hr, i, j - 1);
    } else if i > 0 {
      var ms := MatchesOf(hr.rules[i - 1]);
      CountUpTo(c, hr, i - 1, |ms|);
      assert ms[..|ms|] == ms;
      ExpectedOneMore(hr.rules, i - 1);
    }
  }

  lemma CompiledName(c: Cluster, hr: HTTPRoute, i: nat, j: nat)
    requires IsPair(hr, i, j) && Compiled(c, hr, i, j).route.Some?
    ensures Compiled(c, hr, i, j).route.value.name ==
              hr.namespace + "-" + hr.name + "-rule" + Decimal(i) + "-match" + Decimal(j)
  {
  }

  /** The route of a new pair has another name than the routes of the pairs before it. */
  lemma NewName(c: Cluster, hr: HTTPRoute, i: nat, j: nat, r: Route)
    requires IsPair(hr, i, j) && Compiled(c, hr, i, j).route.Some?
    requires r in UpTo(c, hr, i, j).routes
    ensures r.name != Compiled(c, hr, i, j).route.value.name
  {
    var a, b := RouteOrigin(c, hr, i, j, r);
    CompiledName(c, hr, a, b);
    CompiledName(c, hr, i, j);
    if r.name == Compiled(c, hr, i, j).route.value.name {
      RouteNameInjective(hr.namespace, hr.name, a, b, i, j);
    }
  }

  lemma {:induction false} NamedByPair(c: Cluster, hr: HTTPRoute, i: nat, j: nat, x: nat, y: nat)
    requires IsPosition(hr, i, j) && x < y < |UpTo(c, hr, i, j).routes|
    ensures UpTo(c, hr, i, j).routes[x].name != UpTo(c, hr, i, j).routes[y].name
    decreases i, j
  {
    if j > 0 {
      var before := UpTo(c, hr, i, j - 1).routes;
      if y < |before| {
        NamedByPair(c, hr, i, j - 1, x, y);
      } else {
        NewName(c, hr, i, j - 1, before[x]);
      }
    } else if i > 0 {
      NamedByPair(c, hr, i - 1, |MatchesOf(hr.rules[i - 1])|, x, y);
    }
  }

  /** Pairwise distinct names survive any reordering. */
  lemma NamesStayDistinct(s: seq<Route>, t: seq<Route>, x: nat, y: nat)
    requires multiset(s) == multiset(t) && x < y < |t|
    requires forall a, b :: 0 <= a < b < |s| ==> s[a].name != s[b].name
    ensures t[x].name != t[y].name
  {
    assert t[x] in multiset(s) && t[y] in multiset(s);
    if t[x] == t[y] {
      assert t == t[..y] + [t[y]] + t[y + 1..];
      assert t[..y][x] == t[x];
      assert multiset(t)[t[x]] >= 2;
      var a, b := TwiceInSequence(s, t[x]);
    }
  }

  /** The match is rejected, or the rule forwards and its references do not resolve to any traffic. */
  predicate Fails(c: Cluster, hr: HTTPRoute, i: nat, j: nat)
    requires IsPair(hr, i, j)
  {
    || !Translatable(MatchAt(hr, i, j))
    || (FiltersOf(hr.rules[i].filters).redirect.None? && ForwardingOf(c, hr.namespace, hr.rules[i].backendRefs).Err?)
  }

  lemma FailureExactly(c: Cluster, hr: HTTPRoute, i: nat, j: nat)
    requires IsPair(hr, i, j)
    ensures Compiled(c, hr, i, j).failure.Some? <==> Fails(c, hr, i, j)
  {
  }

  /** How many routes an HTTPRoute expands to, that their names differ, and when its condition is True. */
  lemma ExpansionAccounted(c: Cluster, hr: HTTPRoute, routes: seq<Route>)
    requires IsSortOf(Expanded(c, hr).routes, routes)
    ensures |routes| == ExpectedRoutes(hr.rules)
    ensures forall x, y :: 0 <= x < y < |routes| ==> routes[x].name != routes[y].name
    ensures Expanded(c, hr).condition.status == ConditionTrue <==>
            forall i, j :: IsPair(hr, i, j) ==> !Fails(c, hr, i, j)
  {
    var all := Expanded(c, hr);
    forall i: nat, j: nat | IsPair(hr, i, j) ensures Compiled(c, hr, i, j).failure.Some? <==> Fails(c, hr, i, j) {
      FailureExactly(c, hr, i, j);
    }
    CountUpTo(c, hr, |hr.rules|, 0);
    assert hr.rules[..|hr.rules|] == hr.rules;
    assert |multiset(routes)| == |routes| && |multiset(all.routes)| == |all.routes|;
    forall x, y | 0 <= x < y < |routes| ensures routes[x].name != routes[y].name {
      forall a, b | 0 <= a < b < |all.routes| ensures all.routes[a].name != all.routes[b].name {
        NamedByPair(c, hr, |hr.rules|, 0, a, b);
      }
      NamesStayDistinct(all.routes, routes, x, y);
    }
    forall i, j | IsPair(hr, i, j) && Compiled(c, hr, i, j).failure.Some?
      ensures all.condition.status == ConditionFalse
    {
      PairIncluded(c, hr, |hr.rules|, 0, i, j);
    }
    if forall i, j :: IsPair(hr, i, j) ==> Compiled(c, hr, i, j).failure.None? {
      NoFailureKeepsCondition(c, hr, |hr.rules|, 0);
    }
  }

  lemma {:induction false} NoFailureKeepsCondition(c: Cluster, hr: HTTPRoute, i: nat, j: nat)
    requires IsPosition(hr, i, j)
    requires forall a, b :: IsPair(hr, a, b) ==> Compiled(c, hr, a, b).failure.None?
    ensures UpTo(c, hr, i, j).condition == REFS_RESOLVED
    decreases i, j
  {
    if j > 0 {
      NoFailureKeepsCondition(c, hr, i, j - 1);
      assert IsPair(hr, i, j - 1);
    } else if i > 0 {
      NoFailureKeepsCondition(c, hr, i - 1, |MatchesOf(hr.rules[i - 1])|);
    }
  }

  // ----- routing is preserved -----

  predicate ExactMatch(m: HTTPRouteMatch) { m.path.Some? && m.path.value.matchType == Some(ExactPath) }

  predicate PrefixMatch(m: HTTPRouteMatch) {
    m.path.None? || m.path.value.matchType.None? || m.path.value.matchType == Some(PathPrefix)
  }

  /** The prefix of a match, without the trailing "/" that is ignored. */
  function PrefixOf(m: HTTPRouteMatch): string {
    if m.path.None? || m.path.value.value.None? then "" else TrimSuffix(m.path.value.value.value, "/")
  }

  predicate RewritesPrefix(fs: RuleFilters) { fs.redirect.None? && fs.rewrite.Some? && fs.rewrite.value.prefixRewrite != "" }

  /** A pair whose emitted prefix takes in the separator: a prefix other than "" and "/" of a rule that forwards and
      rewrites the prefix. */
  predicate Switched(c: Cluster, hr: HTTPRoute, i: nat, j: nat)
    requires IsPair(hr, i, j)
  {
    var m, rule := MatchAt(hr, i, j), hr.rules[i];
    && Translatable(m) && PrefixMatch(m) && m.path.Some?
    && m.path.value.value != Some("") && m.path.value.value != Some("/")
    && RewritesPrefix(FiltersOf(rule.filters)) && ForwardingOf(c, hr.namespace, rule.backendRefs).Ok?
  }

  /** These are exactly the pairs whose matcher is not the translation of their match, and it is "<prefix>/" then. */
  lemma SwitchedExactly(c: Cluster, hr: HTTPRoute, i: nat, j: nat)
    requires IsPair(hr, i, j) && Translatable(MatchAt(hr, i, j))
    ensures Compiled(c, hr, i, j).route.Some?
    ensures var m, e := MatchAt(hr, i, j), Compiled(c, hr, i, j).route.value.routeMatch;
      && (Switched(c, hr, i, j) <==> e != Translated(m))
      && (Switched(c, hr, i, j) ==> e == Translated(m).(pathSpecifier := Prefix(PrefixOf(m) + "/")))
  {
    var m := MatchAt(hr, i, j);
    if m.path.Some? && PrefixMatch(m) && m.path.value.value != Some("/") {
      assert Translated(m).pathSpecifier == PathSeparatedPrefix(PrefixOf(m));
      assert PrefixOf(m) == "" <==> m.path.value.value == Some("");
    }
  }

  /** The pairs of a rule are its matches; a rule without matches has one pair, which takes every request whose path begins
      with "/". */
  lemma PairsOfRule(hr: HTTPRoute, i: nat, j: nat, re: Regexes, req: Request)
    requires i < |hr.rules|
    ensures hr.rules[i].matches != [] ==>
              (IsPair(hr, i, j) <==> j < |hr.rules[i].matches|) &&
              (IsPair(hr, i, j) ==> MatchAt(hr, i, j) == hr.rules[i].matches[j])
    ensures hr.rules[i].matches == [] ==>
              (IsPair(hr, i, j) <==> j == 0) && IsPair(hr, i, 0) && Translatable(MatchAt(hr, i, 0)) &&
              (req.path != "" ==> (Takes(MatchAt(hr, i, 0), re, req) <==> req.path[0] == '/'))
  {
    if hr.rules[i].matches == [] && req.path != "" {
      PathPreserved(None, re, req.path);
      assert PathAccepts(Prefix("/"), re, req.path) <==> req.path[0] == '/';
    }
  }

  /** A prefix rewrite costs the pair the path that equals its prefix. */
  predicate LosesPath(c: Cluster, hr: HTTPRoute, i: nat, j: nat, path: string)
    requires IsPair(hr, i, j)
  {
    Switched(c, hr, i, j) && path == PrefixOf(MatchAt(hr, i, j))
  }

  /** The pair is not rejected and serves the request: its match takes it, and no prefix rewrite costs it the path. */
  ghost predicate Serves(c: Cluster, hr: HTTPRoute, i: nat, j: nat, re: Regexes, req: Request)
    requires IsPair(hr, i, j)
  {
    Translatable(MatchAt(hr, i, j)) && Takes(MatchAt(hr, i, j), re, req) && !LosesPath(c, hr, i, j, req.path)
  }

  /** A switched pair no longer takes the path equal to its prefix, and takes everything else as before. */
  lemma CompiledServes(c: Cluster, hr: HTTPRoute, i: nat, j: nat, re: Regexes, req: Request)
    requires IsPair(hr, i, j) && Translatable(MatchAt(hr, i, j)) && req.path != ""
    ensures Compiled(c, hr, i, j).route.Some?
    ensures Accepts(Compiled(c, hr, i, j).route.value.routeMatch, re, req) <==> Serves(c, hr, i, j, re, req)
  {
    SwitchedExactly(c, hr, i, j);
    TakenExactly(MatchAt(hr, i, j), re, req);
    var p := PrefixOf(MatchAt(hr, i, j));
    assert !(p + "/" <= p);
  }

  // The precedence of the Gateway API, on the matches of one or two HTTPRoutes.

  /** The characters of a prefix; no path stands for "/". */
  function PrefixLength(m: HTTPRouteMatch): nat {
    if m.path.None? || m.path.value.value.None? then 1 else |m.path.value.value.value|
  }

  /** m has precedence over n: an exact path first, then the longest prefix, a method, the most headers, the most query
      parameters. The Gateway API leaves the rank of regular expressions to implementations. */
  predicate Outranks(m: HTTPRouteMatch, n: HTTPRouteMatch) {
    if ExactMatch(m) != ExactMatch(n) then ExactMatch(m)
    else if !ExactMatch(m) && !(PrefixMatch(m) && PrefixMatch(n)) then false
    else if !ExactMatch(m) && PrefixLength(m) != PrefixLength(n) then PrefixLength(m) > PrefixLength(n)
    else if m.httpMethod.Some? != n.httpMethod.Some? then m.httpMethod.Some?
    else if |m.headers| != |n.headers| then |m.headers| > |n.headers|
    else |m.queryParams| > |n.queryParams|
  }

  /** m has fewer headers than n, or as many and no more query parameters. */
  predicate NoMoreConditions(m: HTTPRouteMatch, n: HTTPRouteMatch) {
    |m.headers| < |n.headers| || (|m.headers| == |n.headers| && |m.queryParams| <= |n.queryParams|)
  }

  /** A match that the sort puts last: the path "/" or none, and no conditions. */
  predicate CatchAllMatch(m: HTTPRouteMatch) {
    && PrefixMatch(m) && (m.path.None? || m.path.value.value == Some("/"))
    && m.headers == [] && m.queryParams == []
  }

  /** The prefix ends in a "/" that matching ignores. */
  predicate EndsInIgnoredSlash(m: HTTPRouteMatch) {
    && m.path.Some? && m.path.value.value.Some?
    && m.path.value.value.value != "/" && HasSuffix(m.path.value.value.value, "/")
  }

  /** The length that the sort sees of a prefix: an ignored "/" does not count, the one that a prefix rewrite appends
      does. */
  function SortedLength(c: Cluster, hr: HTTPRoute, i: nat, j: nat): nat
    requires IsPair(hr, i, j)
  {
    PrefixLength(MatchAt(hr, i, j)) - (if EndsInIgnoredSlash(MatchAt(hr, i, j)) then 1 else 0)
    + if Switched(c, hr, i, j) then 1 else 0
  }

  /** Of two prefixes, the sort sees less of the first than of the second, compared with what they are, and what is left
      does not put the first ahead. */
  predicate LengthInverts(c: Cluster, hr: HTTPRoute, a: nat, b: nat, hr': HTTPRoute, i: nat, j: nat)
    requires IsPair(hr, a, b) && IsPair(hr', i, j)
  {
    var m, n := MatchAt(hr, a, b), MatchAt(hr', i, j);
    var k, l := SortedLength(c, hr, a, b), SortedLength(c, hr', i, j);
    && PrefixMatch(m) && PrefixMatch(n) && k - l < PrefixLength(m) - PrefixLength(n)
    && (k < l || (k == l && NoMoreConditions(m, n) && (CatchAllMatch(n) ==> CatchAllMatch(m))))
  }

  /** The method of pair (a, b) does not count, so a pair (i, j) on the same path that has no fewer conditions passes it. */
  predicate MethodInverts(c: Cluster, hr: HTTPRoute, a: nat, b: nat, hr': HTTPRoute, i: nat, j: nat)
    requires IsPair(hr, a, b) && IsPair(hr', i, j)
  {
    var m, n := MatchAt(hr, a, b), MatchAt(hr', i, j);
    && m.httpMethod.Some? && n.httpMethod.None?
    && (PrefixMatch(m) ==>
          PrefixLength(m) == PrefixLength(n) && SortedLength(c, hr, a, b) == SortedLength(c, hr', i, j))
    && ExactMatch(m) == ExactMatch(n)
    && NoMoreConditions(m, n) && (CatchAllMatch(n) ==> CatchAllMatch(m))
  }

  /** A catch-all is passed even by the empty prefix, which the API's validation does not admit. */
  predicate EmptyPrefixInverts(m: HTTPRouteMatch, n: HTTPRouteMatch) {
    CatchAllMatch(m) && PrefixMatch(n) && PrefixLength(n) == 0
  }

  /** What makes the comparator put (i, j) of hr' before or beside (a, b) of hr although (a, b) ranks higher. */
  predicate Inverts(c: Cluster, hr: HTTPRoute, a: nat, b: nat, hr': HTTPRoute, i: nat, j: nat)
    requires IsPair(hr, a, b) && IsPair(hr', i, j)
  {
    || LengthInverts(c, hr, a, b, hr', i, j) || MethodInverts(c, hr, a, b, hr', i, j)
    || EmptyPrefixInverts(MatchAt(hr, a, b), MatchAt(hr', i, j))
  }

  /** On pairs of one or two HTTPRoutes that take a common request, the comparator puts first what the Gateway API ranks
      higher, exactly unless lengths, a method or an empty prefix invert the two. */
  lemma OutranksIsBefore(c: Cluster, hr: HTTPRoute, a: nat, b: nat, hr': HTTPRoute, i: nat, j: nat,
                         re: Regexes, req: Request)
    requires IsPair(hr, a, b) && IsPair(hr', i, j) && req.path != ""
    requires Translatable(MatchAt(hr, a, b)) && Translatable(MatchAt(hr', i, j))
    requires Takes(MatchAt(hr, a, b), re, req) && Takes(MatchAt(hr', i, j), re, req)
    requires Outranks(MatchAt(hr, a, b), MatchAt(hr', i, j))
    ensures Compiled(c, hr, a, b).route.Some? && Compiled(c, hr', i, j).route.Some?
    ensures Before(Compiled(c, hr, a, b).route.value.routeMatch, Compiled(c, hr', i, j).route.value.routeMatch)
            <==> !Inverts(c, hr, a, b, hr', i, j)
  {
    CompiledShape(c, hr, a, b, req);
    CompiledShape(c, hr', i, j, req);
  }

  /** What the comparator sees of a compiled pair that takes a request. */
  lemma CompiledShape(c: Cluster, hr: HTTPRoute, i: nat, j: nat, req: Request)
    requires IsPair(hr, i, j) && Translatable(MatchAt(hr, i, j))
    requires ExactMatch(MatchAt(hr, i, j)) ==> MatchAt(hr, i, j).path.value.value == Some(req.path) && req.path != ""
    ensures Compiled(c, hr, i, j).route.Some?
    ensures var m, e := MatchAt(hr, i, j), Compiled(c, hr, i, j).route.value.routeMatch;
      && |e.headers| == |m.headers| && |e.queryParameters| == |m.queryParams|
      && (IsCatchAll(e) <==> CatchAllMatch(m)) && (IsExactPath(e) <==> ExactMatch(m))
      && (ExactMatch(m) ==> PathMatchValue(e) == req.path)
      && (PrefixMatch(m) ==> |PathMatchValue(e)| == SortedLength(c, hr, i, j))
  {
    SwitchedExactly(c, hr, i, j);
    TranslatedShape(MatchAt(hr, i, j));
    if Switched(c, hr, i, j) {
      var p := PrefixOf(MatchAt(hr, i, j));
      assert |p| >= 1 && |p + "/"| == |p| + 1;
    }
  }

  /** The length that the sort sees of a path match. */
  function PathLength(c: Cluster, hr: HTTPRoute, i: nat, j: nat): nat
    requires IsPair(hr, i, j) && Translatable(MatchAt(hr, i, j))
  {
    var m := MatchAt(hr, i, j);
    if PrefixMatch(m) then SortedLength(c, hr, i, j)
    else if ExactMatch(m) then |m.path.value.value.value|
    else |Without(TrimSuffix(m.path.value.value.value, "(/.*)?"), '\\')|
  }

  /** The match is on a path that is not empty. */
  predicate OnExactPath(m: HTTPRouteMatch) { ExactMatch(m) && m.path.value.value != Some("") }

  /** Pair (a, b) of hr is put before pair (i, j) of hr'. */
  predicate Precedes(c: Cluster, hr: HTTPRoute, a: nat, b: nat, hr': HTTPRoute, i: nat, j: nat)
    requires IsPair(hr, a, b) && IsPair(hr', i, j)
    requires Translatable(MatchAt(hr, a, b)) && Translatable(MatchAt(hr', i, j))
  {
    var m, n := MatchAt(hr, a, b), MatchAt(hr', i, j);
    if CatchAllMatch(m) != CatchAllMatch(n) then CatchAllMatch(n)
    else if OnExactPath(m) != OnExactPath(n) then OnExactPath(m)
    else if PathLength(c, hr, a, b) != PathLength(c, hr', i, j) then PathLength(c, hr, a, b) > PathLength(c, hr', i, j)
    else |m.headers| > |n.headers| || (|m.headers| == |n.headers| && |m.queryParams| > |n.queryParams|)
  }

  /** The comparator's order in terms of rules and matches, for all pairs of all HTTPRoutes. */
  lemma PrecedesExactly(c: Cluster, hr: HTTPRoute, a: nat, b: nat, hr': HTTPRoute, i: nat, j: nat, r: Route, s: Route)
    requires IsPair(hr, a, b) && Compiled(c, hr, a, b).route == Some(r)
    requires IsPair(hr', i, j) && Compiled(c, hr', i, j).route == Some(s)
    ensures Translatable(MatchAt(hr, a, b)) && Translatable(MatchAt(hr', i, j))
    ensures Before(r.routeMatch, s.routeMatch) <==> Precedes(c, hr, a, b, hr', i, j)
  {
    PairShape(c, hr, a, b);
    PairShape(c, hr', i, j);
  }

  /** What the comparator sees of any compiled pair. */
  lemma PairShape(c: Cluster, hr: HTTPRoute, i: nat, j: nat)
    requires IsPair(hr, i, j) && Translatable(MatchAt(hr, i, j))
    ensures Compiled(c, hr, i, j).route.Some?
    ensures var m, e := MatchAt(hr, i, j), Compiled(c, hr, i, j).route.value.routeMatch;
      && |e.headers| == |m.headers| && |e.queryParameters| == |m.queryParams|
      && (IsCatchAll(e) <==> CatchAllMatch(m)) && (IsExactPath(e) <==> OnExactPath(m))
      && |PathMatchValue(e)| == PathLength(c, hr, i, j)
  {
    var m := MatchAt(hr, i, j);
    if ExactMatch(m) && m.path.value.value == Some("") {
      assert Compiled(c, hr, i, j).route.value.routeMatch.pathSpecifier == Path("");
    } else if ExactMatch(m) {
      CompiledShape(c, hr, i, j, Request("", m.path.value.value.value, "", map[], map[]));
    } else {
      CompiledShape(c, hr, i, j, Request("", "", "", map[], map[]));
      if !PrefixMatch(m) { SwitchedExactly(c, hr, i, j); }
    }
  }

  lemma TranslatedShape(m: HTTPRouteMatch)
    requires Translatable(m)
    ensures IsCatchAll(Translated(m)) <==> CatchAllMatch(m)
    ensures ExactMatch(m) ==> GetPath(Translated(m)) == m.path.value.value.value
    ensures !ExactMatch(m) ==> GetPath(Translated(m)) == ""
    ensures PrefixMatch(m) ==>
              |PathMatchValue(Translated(m))| == PrefixLength(m) - if EndsInIgnoredSlash(m) then 1 else 0
  {
  }

  /** First-match over the compiled list picks nothing for a request exactly when no pair serves it. */
  lemma UnservedExactly(c: Cluster, hr: HTTPRoute, routes: seq<Route>, re: Regexes, req: Request)
    requires IsSortOf(Expanded(c, hr).routes, routes) && req.path != ""
    ensures FirstMatch(routes, re, req).None? <==>
            forall i, j :: IsPair(hr, i, j) ==> !Serves(c, hr, i, j, re, req)
  {
    forall i, j | IsPair(hr, i, j) && Serves(c, hr, i, j, re, req) ensures FirstMatch(routes, re, req).Some? {
      PairServes(c, hr, routes, re, req, i, j);
    }
    var first := FirstMatch(routes, re, req);
    if first.Some? { var i, j := ServedOrigin(c, hr, routes, first.value, re, req); }
  }

  /** A route of the list that accepts a request was compiled from a pair that serves it. */
  lemma ServedOrigin(c: Cluster, hr: HTTPRoute, routes: seq<Route>, r: Route, re: Regexes, req: Request)
    returns (i: nat, j: nat)
    requires IsSortOf(Expanded(c, hr).routes, routes) && req.path != ""
    requires r in routes && Accepts(r.routeMatch, re, req)
    ensures IsPair(hr, i, j) && Compiled(c, hr, i, j).route == Some(r) && Serves(c, hr, i, j, re, req)
  {
    assert r in multiset(routes);
    i, j := RouteOrigin(c, hr, |hr.rules|, 0, r);
    CompiledServes(c, hr, i, j, re, req);
  }

  /** Pair (i, j) compiles to r and serves the request, and no other pair that serves it outranks it (up to inversions). */
  ghost predicate ServedBest(
    c: Cluster, hr: HTTPRoute, i: nat, j: nat, r: Route, re: Regexes, req: Request)
  {
    && IsPair(hr, i, j) && Compiled(c, hr, i, j).route == Some(r)
    && Serves(c, hr, i, j, re, req)
    && forall a, b :: IsPair(hr, a, b) && Serves(c, hr, a, b, re, req) ==>
         (Outranks(MatchAt(hr, a, b), MatchAt(hr, i, j)) ==> Inverts(c, hr, a, b, hr, i, j))
  }

  /** Otherwise it serves the request the way the HTTPRoute asks. */
  lemma RoutingPreserved(c: Cluster, hr: HTTPRoute, routes: seq<Route>, re: Regexes, req: Request)
    requires IsSortOf(Expanded(c, hr).routes, routes) && req.path != ""
    ensures FirstMatch(routes, re, req).Some? ==>
              exists i, j :: ServedBest(c, hr, i, j, FirstMatch(routes, re, req).value, re, req)
  {
    var first := FirstMatch(routes, re, req);
    if first.Some? {
      var i, j := ServedOrigin(c, hr, routes, first.value, re, req);
      forall a, b | IsPair(hr, a, b) && Serves(c, hr, a, b, re, req) && Outranks(MatchAt(hr, a, b), MatchAt(hr, i, j))
        ensures Inverts(c, hr, a, b, hr, i, j)
      {
        PairServes(c, hr, routes, re, req, a, b);
        FirstMatchIsMaximal(routes, re, req, Compiled(c, hr, a, b).route.value);
        OutranksIsBefore(c, hr, a, b, hr, i, j, re, req);
      }
      assert ServedBest(c, hr, i, j, first.value, re, req);
    }
  }

  lemma PairServes(c: Cluster, hr: HTTPRoute, routes: seq<Route>, re: Regexes, req: Request, i: nat, j: nat)
    requires IsSortOf(Expanded(c, hr).routes, routes) && req.path != ""
    requires IsPair(hr, i, j) && Serves(c, hr, i, j, re, req)
    ensures Compiled(c, hr, i, j).route.Some? && Compiled(c, hr, i, j).route.value in routes
    ensures Accepts(Compiled(c, hr, i, j).route.value.routeMatch, re, req)
  {
    CompiledServes(c, hr, i, j, re, req);
    PairIncluded(c, hr, |hr.rules|, 0, i, j);
    assert Compiled(c, hr, i, j).route.value in multiset(Expanded(c, hr).routes);
  }

  /** For matches of the faithful form that set no method and no prefix rewrite, serving is matching, and only an empty
      prefix or an ignored "/" can invert precedence. */
  lemma PlainPairs(c: Cluster, hr: HTTPRoute, i: nat, j: nat, re: Regexes, req: Request)
    requires IsPair(hr, i, j) && Translatable(MatchAt(hr, i, j)) && FaithfulForm(MatchAt(hr, i, j)) && req.path != ""
    requires !RewritesPrefix(FiltersOf(hr.rules[i].filters))
    ensures Serves(c, hr, i, j, re, req) <==> Matches(MatchAt(hr, i, j), re, req)
    ensures forall a, b :: IsPair(hr, a, b) && MatchAt(hr, a, b).httpMethod.None? && Inverts(c, hr, a, b, hr, i, j) ==>
              EmptyPrefixInverts(MatchAt(hr, a, b), MatchAt(hr, i, j)) || EndsInIgnoredSlash(MatchAt(hr, a, b))
  {
    MatchPreserved(MatchAt(hr, i, j), re, req);
  }

  /** Two rules on one prefix: the first also asks for a header, the second rewrites the prefix. */
  function TwoRules(prefix: string, h: HTTPHeaderMatch, replacement: string, refs: seq<BackendRef>): HTTPRoute {
    var path := Some(HTTPPathMatch(Some(PathPrefix), Some(prefix)));
    var rewrite := URLRewrite(Some(HTTPURLRewriteFilter(None, Some(ReplacePrefixMatch(Some(replacement))))));
    HTTPRoute("n", "r", [], [], [
                HTTPRouteRule([HTTPRouteMatch(path, [h], [], None)], [], refs),
                HTTPRouteRule([HTTPRouteMatch(path, [], [], None)], [rewrite], refs)])
  }

  /** The inversion happens: of these two rules the first ranks higher, yet the second is put first. */
  lemma RewriteInversionHappens(c: Cluster, prefix: string, h: HTTPHeaderMatch, replacement: string, refs: seq<BackendRef>)
    requires prefix != "" && prefix != "/" && replacement != ""
    requires TranslateHeader(h).Some? && ForwardingOf(c, "n", refs).Ok?
    ensures var hr := TwoRules(prefix, h, replacement, refs);
      && Outranks(MatchAt(hr, 0, 0), MatchAt(hr, 1, 0))
      && Compiled(c, hr, 0, 0).route.Some? && Compiled(c, hr, 1, 0).route.Some?
      && Before(Compiled(c, hr, 1, 0).route.value.routeMatch, Compiled(c, hr, 0, 0).route.value.routeMatch)
  {
    var hr := TwoRules(prefix, h, replacement, refs);
    var filters := hr.rules[1].filters;
    assert FiltersOf(filters[..0]) == NO_FILTERS;
    assert FiltersOf(filters).rewrite == Some(RouteAction([], None, None, replacement));
    var req := Request("", prefix, "", map[], map[]);
    CompiledShape(c, hr, 0, 0, req);
    CompiledShape(c, hr, 1, 0, req);
  }

  /** Two rules that forward, one match each. */
  function TwoMatches(m: HTTPRouteMatch, n: HTTPRouteMatch, refs: seq<BackendRef>): HTTPRoute {
    HTTPRoute("n", "r", [], [], [HTTPRouteRule([m], [], refs), HTTPRouteRule([n], [], refs)])
  }

  /** Two matches on one prefix are sorted by what they look like, whatever the rules do besides. */
  lemma TwoMatchesSorted(c: Cluster, m: HTTPRouteMatch, n: HTTPRouteMatch, refs: seq<BackendRef>)
    requires Translatable(m) && Translatable(n) && PrefixMatch(m) && PrefixMatch(n)
    ensures var hr := TwoMatches(m, n, refs);
      && MatchAt(hr, 0, 0) == m && MatchAt(hr, 1, 0) == n
      && Compiled(c, hr, 0, 0).route.Some? && Compiled(c, hr, 1, 0).route.Some?
      && Compiled(c, hr, 0, 0).route.value.routeMatch == Translated(m)
      && Compiled(c, hr, 1, 0).route.value.routeMatch == Translated(n)
  {
    assert FiltersOf([]) == NO_FILTERS;
  }

  /** A method is passed: "POST" ranks above a header under the Gateway API, but is put after it. */
  lemma MethodInversionHappens(c: Cluster, prefix: string, httpMethod: string, h: HTTPHeaderMatch, refs: seq<BackendRef>)
    requires TranslateHeader(h).Some?
    ensures var path := Some(HTTPPathMatch(None, Some(prefix)));
      var hr := TwoMatches(HTTPRouteMatch(path, [], [], Some(httpMethod)), HTTPRouteMatch(path, [h], [], None), refs);
      && Outranks(MatchAt(hr, 0, 0), MatchAt(hr, 1, 0)) && MethodInverts(c, hr, 0, 0, hr, 1, 0)
      && Compiled(c, hr, 0, 0).route.Some? && Compiled(c, hr, 1, 0).route.Some?
      && Before(Compiled(c, hr, 1, 0).route.value.routeMatch, Compiled(c, hr, 0, 0).route.value.routeMatch)
  {
    var path := Some(HTTPPathMatch(None, Some(prefix)));
    TwoMatchesSorted(c, HTTPRouteMatch(path, [], [], Some(httpMethod)), HTTPRouteMatch(path, [h], [], None), refs);
  }

  /** An ignored "/" is passed: "/foo/" has more characters than "/foo", but is put after "/foo" with a header. */
  lemma SlashInversionHappens(c: Cluster, prefix: string, h: HTTPHeaderMatch, refs: seq<BackendRef>)
    requires TranslateHeader(h).Some? && prefix != "" && !HasSuffix(prefix, "/")
    ensures var m := HTTPRouteMatch(Some(HTTPPathMatch(None, Some(prefix + "/"))), [], [], None);
      var n := HTTPRouteMatch(Some(HTTPPathMatch(None, Some(prefix))), [h], [], None);
      var hr := TwoMatches(m, n, refs);
      && Outranks(m, n) && LengthInverts(c, hr, 0, 0, hr, 1, 0)
      && Compiled(c, hr, 0, 0).route.Some? && Compiled(c, hr, 1, 0).route.Some?
      && Before(Compiled(c, hr, 1, 0).route.value.routeMatch, Compiled(c, hr, 0, 0).route.value.routeMatch)
  {
    var m := HTTPRouteMatch(Some(HTTPPathMatch(None, Some(prefix + "/"))), [], [], None);
    var n := HTTPRouteMatch(Some(HTTPPathMatch(None, Some(prefix))), [h], [], None);
    TwoMatchesSorted(c, m, n, refs);
    assert PrefixOf(m) == prefix && PrefixOf(n) == prefix;
    TranslatedShape(m);
    TranslatedShape(n);
  }

  // ----- every forwarding target is a returned backend -----

  /** Every cluster that a compiled route forwards to is named after a port of a backend the compilation returns. */
  lemma RoutesForwardToBackends(c: Cluster, hr: HTTPRoute, r: Route, cw: ClusterWeight)
    requires r in Expanded(c, hr).routes && cw in ClustersOf(r)
    ensures exists b, p :: b in Expanded(c, hr).backends && p in b.ports &&
              cw.name == ClusterName(b.namespace, BackendClusterName(b), ToInt32(p.number))
  {
    var i, j := RouteOrigin(c, hr, |hr.rules|, 0, r);
    var refs := hr.rules[i].backendRefs;
    ForwardsToReturnedBackends(c, hr.namespace, refs, cw);
    var b, p :| b in BackendsIn(ResolveAll(c, hr.namespace, refs).value) && p in b.ports &&
      cw.name == ClusterName(b.namespace, BackendClusterName(b), ToInt32(p.number));
    PairIncluded(c, hr, |hr.rules|, 0, i, j);
    assert b in Compiled(c, hr, i, j).backends;
  }

  ghost predicate WasFetched(c: Cluster, namespace: string, b: RouteBackend) {
    exists ref :: Fetched(c, namespace, ref) == Ok(b)
  }

  lemma CompiledBackendFetched(c: Cluster, hr: HTTPRoute, i: nat, j: nat, b: RouteBackend)
    requires IsPair(hr, i, j) && b in Compiled(c, hr, i, j).backends
    ensures WasFetched(c, hr.namespace, b)
  {
    FetchedForReference(c, hr.namespace, hr.rules[i].backendRefs, b);
  }

  lemma {:induction false} BackendPair(c: Cluster, hr: HTTPRoute, i: nat, j: nat, b: RouteBackend) returns (x: nat, y: nat)
    requires IsPosition(hr, i, j) && b in UpTo(c, hr, i, j).backends
    ensures IsPair(hr, x, y) && b in Compiled(c, hr, x, y).backends
    decreases i, j
  {
    if j > 0 {
      if b in UpTo(c, hr, i, j - 1).backends {
        x, y := BackendPair(c, hr, i, j - 1, b);
      } else {
        x, y := i, j - 1;
      }
    } else if i > 0 {
      x, y := BackendPair(c, hr, i - 1, |MatchesOf(hr.rules[i - 1])|, b);
    }
  }

  /** Every backend the compilation returns was fetched for a reference of some rule. */
  lemma BackendOrigin(c: Cluster, hr: HTTPRoute, b: RouteBackend)
    requires b in Expanded(c, hr).backends
    ensures WasFetched(c, hr.namespace, b)
  {
    var i, j := BackendPair(c, hr, |hr.rules|, 0, b);
    CompiledBackendFetched(c, hr, i, j, b);
  }

  lemma FetchedForReference(c: Cluster, namespace: string, refs: seq<BackendRef>, b: RouteBackend)
    requires ResolveAll(c, namespace, refs).Ok? && b in BackendsIn(ResolveAll(c, namespace, refs).value)
    ensures WasFetched(c, namespace, b)
  {
    BackendsFaithful(c, namespace, refs);
    var bs := BackendsIn(ResolveAll(c, namespace, refs).value);
    var k :| 0 <= k < |bs| && bs[k] == b;
    assert IsFetched(c, namespace, refs[k], b);
  }

  /** All port numbers of the cached objects fit an int32; the API's validation bounds them by 65535. */
  predicate PortsFit(c: Cluster) {
    && (forall k :: k in c.backends ==> forall p :: p in c.backends[k].ports ==> p.number < TWO_TO_THE_31)
    && (forall k :: k in c.services ==> forall p :: p in c.services[k].ports ==> p.port >= 0)
  }

  lemma {:induction false} ServicePortsFit(ports: seq<ServicePort>)
    requires forall p :: p in ports ==> p.port >= 0
    ensures forall p :: p in PortsOfService(ports) ==> p.number < TWO_TO_THE_31
  {
    if ports != [] {
      ServicePortsFit(ports[..|ports| - 1]);
      assert ports[|ports| - 1] in ports;
    }
  }

  /** Then every cluster that a route forwards to is the cluster of a port of a returned backend. */
  lemma RoutesForwardToClusters(c: Cluster, hr: HTTPRoute, r: Route, cw: ClusterWeight)
    requires PortsFit(c) && r in Expanded(c, hr).routes && cw in ClustersOf(r)
    ensures exists b, p :: b in Expanded(c, hr).backends && p in b.ports &&
              cw.name == ClusterName(b.namespace, BackendClusterName(b), p.number)
  {
    RoutesForwardToBackends(c, hr, r, cw);
    var b, p :| b in Expanded(c, hr).backends && p in b.ports &&
      cw.name == ClusterName(b.namespace, BackendClusterName(b), ToInt32(p.number));
    BackendOrigin(c, hr, b);
    FetchedPortsFit(c, hr.namespace, b, p);
  }

  lemma FetchedPortsFit(c: Cluster, namespace: string, b: RouteBackend, p: RouteBackendPort)
    requires PortsFit(c) && WasFetched(c, namespace, b) && p in b.ports
    ensures p.number < TWO_TO_THE_31
  {
    var ref :| Fetched(c, namespace, ref) == Ok(b);
    var key := NamespacedName(NamespaceOf(namespace, ref), ref.name);
    if ref.kind == "Backend" {
      var k :| 0 <= k < |b.ports| && b.ports[k] == p;
      assert c.backends[key].ports[k] in c.backends[key].ports;
    } else {
      ServicePortsFit(c.services[key].ports);
    }
  }
}
