/** The order of Envoy routes: the comparator, the sort, and what sorting buys a first-match list. */
module Precedence {
  import opened Text
  import opened EnvoyApi
  import opened Sorting

  // ----- the comparator -----

  function GetPath(m: RouteMatch): string {
    if m.pathSpecifier.Path? then m.pathSpecifier.path else ""
  }

  function GetPrefix(m: RouteMatch): string {
    if m.pathSpecifier.Prefix? then m.pathSpecifier.prefix else ""
  }

  function GetPathSeparatedPrefix(m: RouteMatch): string {
    if m.pathSpecifier.PathSeparatedPrefix? then m.pathSpecifier.separated else ""
  }

  /** The text whose length ranks a path matcher; a regular expression is stripped of "(/.*)?" and backslashes. */
  function PathMatchValue(m: RouteMatch): string {
    if GetPath(m) != "" then GetPath(m)
    else if GetPrefix(m) != "" then GetPrefix(m)
    else if GetPathSeparatedPrefix(m) != "" then GetPathSeparatedPrefix(m)
    else if m.pathSpecifier.SafeRegex? then Without(TrimSuffix(m.pathSpecifier.regex, "(/.*)?"), '\\')
    else ""
  }

  predicate IsCatchAll(m: RouteMatch) {
    GetPrefix(m) == "/" && |m.headers| == 0 && |m.queryParameters| == 0
  }

  predicate IsExactPath(m: RouteMatch) { GetPath(m) != "" }

  /** True when a comes strictly before b. */
  predicate Before(a: RouteMatch, b: RouteMatch) {
    if IsCatchAll(a) != IsCatchAll(b) then IsCatchAll(b)
    else if IsExactPath(a) != IsExactPath(b) then IsExactPath(a)
    else if |PathMatchValue(a)| != |PathMatchValue(b)| then |PathMatchValue(a)| > |PathMatchValue(b)|
    else if |a.headers| != |b.headers| then |a.headers| > |b.headers|
    else if |a.queryParameters| != |b.queryParameters| then |a.queryParameters| > |b.queryParameters|
    else false
  }

  /** The comparator is a strict weak order: irreflexive, transitive, and "neither before the other" is transitive. */
  lemma BeforeIsStrictWeak(a: RouteMatch, b: RouteMatch, c: RouteMatch)
    ensures !Before(a, a)
    ensures Before(a, b) ==> !Before(b, a)
    ensures Before(a, b) && Before(b, c) ==> Before(a, c)
    ensures !Before(a, b) && !Before(b, c) ==> !Before(a, c)
  {
  }

  /** The comparator that orders routes by their matches. */
  const ROUTE_ORDER: (Route, Route) -> bool :=
    (a: Route, b: Route) => Before(a.routeMatch, b.routeMatch)

  /** The comparator is a strict weak order, as sort.Slice needs. */
  lemma RouteOrderIsStrictWeak()
    ensures StrictWeakOrder(ROUTE_ORDER)
  {
    forall a: Route, b: Route, c: Route
      ensures !ROUTE_ORDER(a, a)
      ensures ROUTE_ORDER(a, b) && ROUTE_ORDER(b, c) ==> ROUTE_ORDER(a, c)
      ensures !ROUTE_ORDER(a, b) && !ROUTE_ORDER(b, c) ==> !ROUTE_ORDER(a, c)
    {
      BeforeIsStrictWeak(a.routeMatch, b.routeMatch, c.routeMatch);
    }
  }

  // ----- the sort -----

  ghost predicate Sorted(routes: seq<Route>) { SortedBy(ROUTE_ORDER, routes) }

  /** What one call of sortRoutes promises; the order of ties is left open. */
  ghost predicate IsSortOf(before: seq<Route>, after: seq<Route>) {
    multiset(after) == multiset(before) && Sorted(after)
  }

  method SortRoutes(routes: array<Route>)
    modifies routes
    ensures IsSortOf(old(routes[..]), routes[..])
  {
    RouteOrderIsStrictWeak();
    SortSlice(routes, ROUTE_ORDER);
  }

  // ----- first match over a sorted list -----

  /** In a sorted list the first route that accepts a request has maximal precedence among all that accept it. */
  lemma FirstMatchIsMaximal(routes: seq<Route>, re: Regexes, req: Request, other: Route)
    requires Sorted(routes) && other in routes && Accepts(other.routeMatch, re, req)
    ensures FirstMatch(routes, re, req).Some?
    ensures !Before(other.routeMatch, FirstMatch(routes, re, req).value.routeMatch)
  {
    var k := FirstMatchIndex(routes, re, req);
    var i :| 0 <= i < |routes| && routes[i] == other;
    assert i == k || !ROUTE_ORDER(other, routes[k]);
  }

  /** A sorted list ends in a block that holds all of its catch-alls and nothing else. */
  lemma {:induction false} CatchAllsLast(routes: seq<Route>) returns (k: nat)
    requires Sorted(routes)
    ensures k <= |routes|
    ensures forall i :: 0 <= i < |routes| ==> (IsCatchAll(routes[i].routeMatch) <==> k <= i)
  {
    k := |routes|;
    while k > 0 && IsCatchAll(routes[k - 1].routeMatch)
      invariant 0 <= k <= |routes|
      invariant forall i :: k <= i < |routes| ==> IsCatchAll(routes[i].routeMatch)
    {
      k := k - 1;
    }
    forall i | 0 <= i < k ensures !IsCatchAll(routes[i].routeMatch) {
      if i < k - 1 { assert !ROUTE_ORDER(routes[k - 1], routes[i]); }
    }
  }

  /** The tie order that sort.Slice leaves open is all that two sorts of one list can differ in. */
  lemma SortedListsAgreeUpToTies(routes: seq<Route>, s: seq<Route>, t: seq<Route>, k: nat)
    requires IsSortOf(routes, s) && IsSortOf(routes, t) && k < |s|
    ensures |s| == |t|
    ensures !Before(s[k].routeMatch, t[k].routeMatch) && !Before(t[k].routeMatch, s[k].routeMatch)
  {
    RouteOrderIsStrictWeak();
    SortsAgreeUpToTies(ROUTE_ORDER, s, t, k);
  }

  /** The order of the routes is fixed exactly when any two different routes are ordered. */
  lemma OrderFixedExactly(routes: seq<Route>)
    ensures (forall s, t :: IsSortOf(routes, s) && IsSortOf(routes, t) ==> s == t) <==>
            forall x, y :: x in routes && y in routes && x != y ==>
              Before(x.routeMatch, y.routeMatch) || Before(y.routeMatch, x.routeMatch)
  {
    RouteOrderIsStrictWeak();
    SortFixedExactly(ROUTE_ORDER, routes);
    assert forall s :: IsSortOf(routes, s) <==> Sorts(ROUTE_ORDER, routes, s);
  }

  // ----- what ties leave open -----

  /** r accepts the request, and no route that accepts it comes before r. */
  ghost predicate Maximal(routes: seq<Route>, re: Regexes, req: Request, r: Route) {
    && r in routes && Accepts(r.routeMatch, re, req)
    && forall x :: x in routes && Accepts(x.routeMatch, re, req) ==> !Before(x.routeMatch, r.routeMatch)
  }

  /** The answer of a stable sort: the first of the maximal routes, in the order of the list. */
  ghost function StableAnswer(routes: seq<Route>, re: Regexes, req: Request): Option<Route> {
    if routes == [] then None
    else
      var best, last := StableAnswer(routes[..|routes| - 1], re, req), routes[|routes| - 1];
      if Accepts(last.routeMatch, re, req) && (best.None? || Before(last.routeMatch, best.value.routeMatch))
      then Some(last) else best
  }

  lemma {:induction false} FirstMatchAppend(a: seq<Route>, b: seq<Route>, re: Regexes, req: Request)
    ensures FirstMatch(a + b, re, req) ==
              if FirstMatch(a, re, req).Some? then FirstMatch(a, re, req) else FirstMatch(b, re, req)
  {
    if a == [] {
      assert a + b == b;
    } else {
      assert (a + b)[1..] == a[1..] + b;
      FirstMatchAppend(a[1..], b, re, req);
    }
  }

  /** The answer of the routes once x has been put behind everything it does not come before. */
  ghost function AnswerWith(x: Route, first: Option<Route>, re: Regexes, req: Request): Option<Route> {
    if Accepts(x.routeMatch, re, req) && (first.None? || Before(x.routeMatch, first.value.routeMatch))
    then Some(x) else first
  }

  lemma SortedFront(routes: seq<Route>)
    requires Sorted(routes) && routes != []
    ensures Sorted(routes[..|routes| - 1])
  {
  }

  lemma {:induction false} InsertAnswers(routes: seq<Route>, x: Route, re: Regexes, req: Request)
    requires Sorted(routes)
    ensures FirstMatch(Insert(ROUTE_ORDER, routes, x), re, req) == AnswerWith(x, FirstMatch(routes, re, req), re, req)
  {
    if routes != [] && ROUTE_ORDER(x, routes[|routes| - 1]) {
      var front, last := routes[..|routes| - 1], routes[|routes| - 1];
      assert routes == front + [last];
      SortedFront(routes);
      InsertAnswers(front, x, re, req);
      PassedAnswers(front, Insert(ROUTE_ORDER, front, x), last, x, re, req);
    } else {
      LastAnswers(routes, x, re, req);
    }
  }

  /** A last route that x passes answers only what neither x nor any other accepts. */
  lemma PassedAnswers(front: seq<Route>, inserted: seq<Route>, last: Route, x: Route, re: Regexes, req: Request)
    requires FirstMatch(inserted, re, req) == AnswerWith(x, FirstMatch(front, re, req), re, req)
    requires Before(x.routeMatch, last.routeMatch)
    ensures FirstMatch(inserted + [last], re, req) == AnswerWith(x, FirstMatch(front + [last], re, req), re, req)
  {
    FirstMatchAppend(front, [last], re, req);
    FirstMatchAppend(inserted, [last], re, req);
  }

  /** A route that is not before the last one answers only what no other accepts. */
  lemma LastAnswers(routes: seq<Route>, x: Route, re: Regexes, req: Request)
    requires Sorted(routes) && (routes != [] ==> !Before(x.routeMatch, routes[|routes| - 1].routeMatch))
    ensures FirstMatch(routes + [x], re, req) == AnswerWith(x, FirstMatch(routes, re, req), re, req)
  {
    FirstMatchAppend(routes, [x], re, req);
    if FirstMatch(routes, re, req).Some? {
      var k := FirstMatchIndex(routes, re, req);
      var last := routes[|routes| - 1];
      assert k == |routes| - 1 || !ROUTE_ORDER(last, routes[k]);
      BeforeIsStrictWeak(x.routeMatch, last.routeMatch, routes[k].routeMatch);
    }
  }

  /** A stable sort is a sort, and answers with the first of the maximal routes. */
  lemma {:induction false} StableSortAnswers(routes: seq<Route>, re: Regexes, req: Request)
    ensures IsSortOf(routes, StableSort(ROUTE_ORDER, routes))
    ensures FirstMatch(StableSort(ROUTE_ORDER, routes), re, req) == StableAnswer(routes, re, req)
  {
    RouteOrderIsStrictWeak();
    StableSorts(ROUTE_ORDER, routes);
    if routes != [] {
      var front, last := routes[..|routes| - 1], routes[|routes| - 1];
      StableSortAnswers(front, re, req);
      InsertAnswers(StableSort(ROUTE_ORDER, front), last, re, req);
    }
  }

  lemma {:induction false} FirstOfTies(r: Route, rest: seq<Route>, re: Regexes, req: Request)
    requires Accepts(r.routeMatch, re, req)
    requires forall x :: x in rest && Accepts(x.routeMatch, re, req) ==> !Before(x.routeMatch, r.routeMatch)
    ensures StableAnswer([r] + rest, re, req) == Some(r)
  {
    if rest == [] {
      assert [r] + rest == [r] && [r][..0] == [];
    } else {
      var all, front := [r] + rest, rest[..|rest| - 1];
      assert all[..|all| - 1] == [r] + front && rest[|rest| - 1] in rest;
      FirstOfTies(r, front, re, req);
    }
  }

  /** The routes that some sort of the list answers a request with are exactly the maximal ones. */
  lemma PossibleAnswersExactly(routes: seq<Route>, re: Regexes, req: Request, r: Route)
    ensures (exists s :: IsSortOf(routes, s) && FirstMatch(s, re, req) == Some(r)) <==> Maximal(routes, re, req, r)
  {
    if s :| IsSortOf(routes, s) && FirstMatch(s, re, req) == Some(r) { AnswerIsMaximal(routes, s, re, req); }
    if Maximal(routes, re, req, r) { var s := SortThatAnswers(routes, re, req, r); }
  }

  lemma AnswerIsMaximal(routes: seq<Route>, s: seq<Route>, re: Regexes, req: Request)
    requires IsSortOf(routes, s) && FirstMatch(s, re, req).Some?
    ensures Maximal(routes, re, req, FirstMatch(s, re, req).value)
  {
    var r := FirstMatch(s, re, req).value;
    assert r in multiset(s);
    forall x | x in routes && Accepts(x.routeMatch, re, req) ensures !Before(x.routeMatch, r.routeMatch) {
      assert x in multiset(routes);
      FirstMatchIsMaximal(s, re, req, x);
    }
  }

  lemma SortThatAnswers(routes: seq<Route>, re: Regexes, req: Request, r: Route) returns (s: seq<Route>)
    requires Maximal(routes, re, req, r)
    ensures IsSortOf(routes, s) && FirstMatch(s, re, req) == Some(r)
  {
    var k :| 0 <= k < |routes| && routes[k] == r;
    var rest := routes[..k] + routes[k + 1..];
    assert routes == routes[..k] + [r] + routes[k + 1..];
    FirstOfTies(r, rest, re, req);
    StableSortAnswers([r] + rest, re, req);
    s := StableSort(ROUTE_ORDER, [r] + rest);
  }

  /** Every sort answers a request as a stable one would exactly when there is at most one maximal route. */
  lemma AnswerFixedExactly(routes: seq<Route>, re: Regexes, req: Request)
    ensures (forall s :: IsSortOf(routes, s) ==> FirstMatch(s, re, req) == StableAnswer(routes, re, req)) <==>
            forall x, y :: Maximal(routes, re, req, x) && Maximal(routes, re, req, y) ==> x == y
  {
    StableSortAnswers(routes, re, req);
    if forall x, y :: Maximal(routes, re, req, x) && Maximal(routes, re, req, y) ==> x == y {
      forall s | IsSortOf(routes, s) ensures FirstMatch(s, re, req) == StableAnswer(routes, re, req) {
        SortsAnswerAlike(routes, s, StableSort(ROUTE_ORDER, routes), re, req);
      }
    } else {
      var x, y :| Maximal(routes, re, req, x) && Maximal(routes, re, req, y) && x != y;
      var s := SortThatAnswers(routes, re, req, x);
      var t := SortThatAnswers(routes, re, req, y);
    }
  }

  lemma SortsAnswerAlike(routes: seq<Route>, s: seq<Route>, t: seq<Route>, re: Regexes, req: Request)
    requires IsSortOf(routes, s) && IsSortOf(routes, t)
    requires forall x, y :: Maximal(routes, re, req, x) && Maximal(routes, re, req, y) ==> x == y
    ensures FirstMatch(s, re, req) == FirstMatch(t, re, req)
  {
    assert forall x :: x in s <==> x in multiset(t);
    if FirstMatch(s, re, req).Some? { AnswerIsMaximal(routes, s, re, req); }
    if FirstMatch(t, re, req).Some? { AnswerIsMaximal(routes, t, re, req); }
  }
}
