/** What the sort leaves open between rules that tie, and when the first rule in list order is sure to answer. */
module Ties {
  import opened Text
  import opened GatewayApi
  import opened EnvoyApi
  import opened Names
  import opened RouteMatching
  import opened Precedence
  import opened RouteTranslation
  import opened RouteProperties

  /** Pair (i, j) serves the request, and no pair that serves it precedes (i, j). */
  ghost predicate BestPair(c: Cluster, hr: HTTPRoute, i: nat, j: nat, re: Regexes, req: Request) {
    && IsPair(hr, i, j) && Serves(c, hr, i, j, re, req)
    && forall a, b :: IsPair(hr, a, b) && Serves(c, hr, a, b, re, req) ==> !Precedes(c, hr, a, b, hr, i, j)
  }

  /** Of the pairs before a position that serve the request, (a, b) is not preceded by any and precedes those before it. */
  ghost predicate FirstBest(
    c: Cluster, hr: HTTPRoute, i: nat, j: nat, a: nat, b: nat, re: Regexes, req: Request)
  {
    && IsPair(hr, a, b) && Earlier(a, b, i, j) && Serves(c, hr, a, b, re, req)
    && forall x, y :: IsPair(hr, x, y) && Earlier(x, y, i, j) && Serves(c, hr, x, y, re, req) ==>
         !Precedes(c, hr, x, y, hr, a, b) && (Earlier(x, y, a, b) ==> Precedes(c, hr, a, b, hr, x, y))
  }

  ghost predicate NoneServes(c: Cluster, hr: HTTPRoute, i: nat, j: nat, re: Regexes, req: Request) {
    forall x, y :: IsPair(hr, x, y) && Earlier(x, y, i, j) ==> !Serves(c, hr, x, y, re, req)
  }

  lemma PrecedesIsStrictWeak(c: Cluster, hr: HTTPRoute, i: nat, j: nat, a: nat, b: nat, x: nat, y: nat)
    requires IsPair(hr, i, j) && IsPair(hr, a, b) && IsPair(hr, x, y)
    requires Translatable(MatchAt(hr, i, j)) && Translatable(MatchAt(hr, a, b)) && Translatable(MatchAt(hr, x, y))
    ensures !Precedes(c, hr, i, j, hr, i, j)
    ensures Precedes(c, hr, i, j, hr, a, b) && !Precedes(c, hr, x, y, hr, a, b) ==> Precedes(c, hr, i, j, hr, x, y)
    ensures Precedes(c, hr, i, j, hr, a, b) ==> !Precedes(c, hr, a, b, hr, i, j)
  {
  }

  /** One more pair that serves the request becomes the first best one exactly when it precedes the one so far. */
  lemma FirstBestStep(c: Cluster, hr: HTTPRoute, i: nat, j: nat, a: nat, b: nat, re: Regexes, req: Request)
    requires IsPair(hr, i, j) && Serves(c, hr, i, j, re, req) && FirstBest(c, hr, i, j, a, b, re, req)
    ensures if Precedes(c, hr, i, j, hr, a, b) then FirstBest(c, hr, i, j + 1, i, j, re, req)
            else FirstBest(c, hr, i, j + 1, a, b, re, req)
  {
    forall x, y | IsPair(hr, x, y) && Earlier(x, y, i, j + 1) && Serves(c, hr, x, y, re, req)
      ensures (x == i && y == j) || Earlier(x, y, i, j)
      ensures Precedes(c, hr, i, j, hr, a, b) && Earlier(x, y, i, j) ==>
                Precedes(c, hr, i, j, hr, x, y) && !Precedes(c, hr, x, y, hr, i, j)
    {
      PrecedesIsStrictWeak(c, hr, i, j, a, b, x, y);
      PrecedesIsStrictWeak(c, hr, i, j, x, y, x, y);
    }
    PrecedesIsStrictWeak(c, hr, i, j, i, j, i, j);
  }

  /** The answer is the route of the first best pair before the position, or nothing if none serves the request. */
  ghost predicate AnswersFirst(
    c: Cluster, hr: HTTPRoute, i: nat, j: nat, answer: Option<Route>, a: nat, b: nat, re: Regexes, req: Request)
  {
    if answer.None? then NoneServes(c, hr, i, j, re, req)
    else FirstBest(c, hr, i, j, a, b, re, req) && Compiled(c, hr, a, b).route == answer
  }

  /** Some pair is the one. */
  ghost predicate FirstAnswers(
    c: Cluster, hr: HTTPRoute, i: nat, j: nat, answer: Option<Route>, re: Regexes, req: Request)
  {
    exists a, b :: AnswersFirst(c, hr, i, j, answer, a, b, re, req)
  }

  /** A stable sort answers for what the pairs before the position compile to with the first best pair. */
  ghost predicate AnsweredUpTo(c: Cluster, hr: HTTPRoute, i: nat, j: nat, re: Regexes, req: Request) {
    IsPosition(hr, i, j) && FirstAnswers(c, hr, i, j, StableAnswer(UpTo(c, hr, i, j).routes, re, req), re, req)
  }

  lemma {:induction false} StableAnswerUpTo(c: Cluster, hr: HTTPRoute, i: nat, j: nat, re: Regexes, req: Request)
    requires IsPosition(hr, i, j) && req.path != ""
    ensures AnsweredUpTo(c, hr, i, j, re, req)
    decreases i, j, 1
  {
    if j == 0 {
      StableAnswerAtRule(c, hr, i, re, req);
    } else {
      StableAnswerUpTo(c, hr, i, j - 1, re, req);
      var before, route := UpTo(c, hr, i, j - 1).routes, Compiled(c, hr, i, j - 1).route;
      var a, b :| AnswersFirst(c, hr, i, j - 1, StableAnswer(before, re, req), a, b, re, req);
      UpToNext(c, hr, i, j - 1);
      StableAnswerOneMore(before, route, UpTo(c, hr, i, j).routes, re, req);
      var a', b' := OneMorePair(c, hr, i, j - 1, StableAnswer(before, re, req), a, b, re, req);
    }
  }

  lemma {:induction false} StableAnswerAtRule(c: Cluster, hr: HTTPRoute, i: nat, re: Regexes, req: Request)
    requires i <= |hr.rules| && req.path != ""
    ensures AnsweredUpTo(c, hr, i, 0, re, req)
    decreases i, 0, 0
  {
    if i == 0 {
      assert UpTo(c, hr, 0, 0).routes == [];
      assert AnswersFirst(c, hr, 0, 0, None, 0, 0, re, req);
    } else {
      var n := |MatchesOf(hr.rules[i - 1])|;
      StableAnswerUpTo(c, hr, i - 1, n, re, req);
      var answer := StableAnswer(UpTo(c, hr, i - 1, n).routes, re, req);
      var a, b :| AnswersFirst(c, hr, i - 1, n, answer, a, b, re, req);
      NextRule(c, hr, i, answer, a, b, re, req);
    }
  }

  lemma UpToNext(c: Cluster, hr: HTTPRoute, i: nat, j: nat)
    requires IsPair(hr, i, j)
    ensures UpTo(c, hr, i, j + 1).routes ==
              UpTo(c, hr, i, j).routes + match Compiled(c, hr, i, j).route { case None => [] case Some(r) => [r] }
  {
  }

  /** The position behind a rule is the one before the next. */
  lemma NextRule(c: Cluster, hr: HTTPRoute, i: nat, answer: Option<Route>, a: nat, b: nat, re: Regexes, req: Request)
    requires 0 < i <= |hr.rules|
    requires AnswersFirst(c, hr, i - 1, |MatchesOf(hr.rules[i - 1])|, answer, a, b, re, req)
    ensures AnswersFirst(c, hr, i, 0, answer, a, b, re, req)
  {
    assert forall x, y :: IsPair(hr, x, y) && Earlier(x, y, i, 0) ==> Earlier(x, y, i - 1, |MatchesOf(hr.rules[i - 1])|);
  }

  /** The route takes over from the answer so far. */
  ghost predicate TakesOver(route: Option<Route>, answer: Option<Route>, re: Regexes, req: Request) {
    && route.Some? && Accepts(route.value.routeMatch, re, req)
    && (answer.None? || Before(route.value.routeMatch, answer.value.routeMatch))
  }

  lemma StableAnswerOneMore(before: seq<Route>, route: Option<Route>, after: seq<Route>, re: Regexes, req: Request)
    requires after == if route.Some? then before + [route.value] else before
    ensures StableAnswer(after, re, req) ==
              if TakesOver(route, StableAnswer(before, re, req), re, req) then route else StableAnswer(before, re, req)
  {
    if route.Some? { assert after[..|after| - 1] == before; }
  }

  lemma OneMorePair(c: Cluster, hr: HTTPRoute, i: nat, j: nat, answer: Option<Route>, a: nat, b: nat,
                    re: Regexes, req: Request) returns (a': nat, b': nat)
    requires IsPair(hr, i, j) && AnswersFirst(c, hr, i, j, answer, a, b, re, req) && req.path != ""
    ensures var route := Compiled(c, hr, i, j).route;
      AnswersFirst(c, hr, i, j + 1, if TakesOver(route, answer, re, req) then route else answer, a', b', re, req)
  {
    a', b' := a, b;
    if Serves(c, hr, i, j, re, req) {
      CompiledServes(c, hr, i, j, re, req);
      if answer.None? {
        a', b' := i, j;
        FirstServer(c, hr, i, j, re, req);
      } else {
        PrecedesExactly(c, hr, i, j, hr, a, b, Compiled(c, hr, i, j).route.value, answer.value);
        FirstBestStep(c, hr, i, j, a, b, re, req);
        if Precedes(c, hr, i, j, hr, a, b) { a', b' := i, j; }
      }
    } else {
      AcceptsOnlyServed(c, hr, i, j, re, req);
      SilentPair(c, hr, i, j, answer, a, b, re, req);
    }
  }

  lemma SilentPair(c: Cluster, hr: HTTPRoute, i: nat, j: nat, answer: Option<Route>, a: nat, b: nat,
                   re: Regexes, req: Request)
    requires IsPair(hr, i, j) && !Serves(c, hr, i, j, re, req)
    requires AnswersFirst(c, hr, i, j, answer, a, b, re, req)
    ensures AnswersFirst(c, hr, i, j + 1, answer, a, b, re, req)
  {
    assert forall x, y :: Earlier(x, y, i, j + 1) ==> Earlier(x, y, i, j) || (x == i && y == j);
  }

  lemma FirstServer(c: Cluster, hr: HTTPRoute, i: nat, j: nat, re: Regexes, req: Request)
    requires IsPair(hr, i, j) && Serves(c, hr, i, j, re, req) && NoneServes(c, hr, i, j, re, req)
    ensures FirstBest(c, hr, i, j + 1, i, j, re, req)
  {
    PrecedesIsStrictWeak(c, hr, i, j, i, j, i, j);
    assert forall x, y :: Earlier(x, y, i, j + 1) ==> Earlier(x, y, i, j) || (x == i && y == j);
  }

  lemma AcceptsOnlyServed(c: Cluster, hr: HTTPRoute, i: nat, j: nat, re: Regexes, req: Request)
    requires IsPair(hr, i, j) && !Serves(c, hr, i, j, re, req) && req.path != ""
    ensures var r := Compiled(c, hr, i, j).route; r.Some? ==> !Accepts(r.value.routeMatch, re, req)
  {
    if Translatable(MatchAt(hr, i, j)) { CompiledServes(c, hr, i, j, re, req); }
  }

  /** The routes that can answer are those of the best pairs. */
  lemma MaximalIsBest(c: Cluster, hr: HTTPRoute, i: nat, j: nat, re: Regexes, req: Request)
    requires IsPair(hr, i, j) && req.path != ""
    ensures BestPair(c, hr, i, j, re, req) <==>
            Compiled(c, hr, i, j).route.Some? && Maximal(Expanded(c, hr).routes, re, req, Compiled(c, hr, i, j).route.value)
  {
    var all, route := Expanded(c, hr).routes, Compiled(c, hr, i, j).route;
    PairIncluded(c, hr, |hr.rules|, 0, i, j);
    if BestPair(c, hr, i, j, re, req) {
      CompiledServes(c, hr, i, j, re, req);
      forall x | x in all && Accepts(x.routeMatch, re, req) ensures !Before(x.routeMatch, route.value.routeMatch) {
        var a, b := RouteOrigin(c, hr, |hr.rules|, 0, x);
        CompiledServes(c, hr, a, b, re, req);
        PrecedesExactly(c, hr, a, b, hr, i, j,
                        Compiled(c, hr, a, b).route.value, Compiled(c, hr, i, j).route.value);
      }
    }
    if route.Some? && Maximal(all, re, req, route.value) {
      CompiledServes(c, hr, i, j, re, req);
      forall a, b | IsPair(hr, a, b) && Serves(c, hr, a, b, re, req) ensures !Precedes(c, hr, a, b, hr, i, j) {
        ServerAccepts(c, hr, a, b, re, req);
        PrecedesExactly(c, hr, a, b, hr, i, j,
                        Compiled(c, hr, a, b).route.value, Compiled(c, hr, i, j).route.value);
      }
    }
  }

  lemma ServerAccepts(c: Cluster, hr: HTTPRoute, i: nat, j: nat, re: Regexes, req: Request)
    requires IsPair(hr, i, j) && Serves(c, hr, i, j, re, req) && req.path != ""
    ensures Compiled(c, hr, i, j).route.Some? && Compiled(c, hr, i, j).route.value in Expanded(c, hr).routes
    ensures Accepts(Compiled(c, hr, i, j).route.value.routeMatch, re, req)
  {
    CompiledServes(c, hr, i, j, re, req);
    PairIncluded(c, hr, |hr.rules|, 0, i, j);
  }

  /** At most one pair is best. */
  ghost predicate NoTieServes(c: Cluster, hr: HTTPRoute, re: Regexes, req: Request) {
    forall i, j, a, b :: BestPair(c, hr, i, j, re, req) && BestPair(c, hr, a, b, re, req) ==> i == a && j == b
  }

  /** The Gateway API lets the first rule in list order answer among rules that tie. A stable sort does so; the sort that
      is used is sure to, exactly when no two best pairs tie. */
  lemma FirstRuleWinsExactly(c: Cluster, hr: HTTPRoute, re: Regexes, req: Request)
    requires req.path != ""
    ensures var answer := StableAnswer(Expanded(c, hr).routes, re, req);
      && (answer.None? <==> NoneServes(c, hr, |hr.rules|, 0, re, req))
      && (answer.Some? ==> exists i, j :: FirstBest(c, hr, |hr.rules|, 0, i, j, re, req)
                                          && Compiled(c, hr, i, j).route == answer)
      && ((forall s :: IsSortOf(Expanded(c, hr).routes, s) ==> FirstMatch(s, re, req) == answer)
          <==> NoTieServes(c, hr, re, req))
  {
    var all := Expanded(c, hr).routes;
    StableAnswerUpTo(c, hr, |hr.rules|, 0, re, req);
    var i, j :| AnswersFirst(c, hr, |hr.rules|, 0, StableAnswer(all, re, req), i, j, re, req);
    AnswerFixedExactly(all, re, req);
    if NoTieServes(c, hr, re, req) {
      forall x, y | Maximal(all, re, req, x) && Maximal(all, re, req, y) ensures x == y {
        var a, b := RouteOrigin(c, hr, |hr.rules|, 0, x);
        var a', b' := RouteOrigin(c, hr, |hr.rules|, 0, y);
        MaximalIsBest(c, hr, a, b, re, req);
        MaximalIsBest(c, hr, a', b', re, req);
      }
    } else {
      var i, j, a, b :| BestPair(c, hr, i, j, re, req) && BestPair(c, hr, a, b, re, req) && !(i == a && j == b);
      TwoBestPairs(c, hr, i, j, a, b, re, req);
    }
  }

  /** Different best pairs are different maximal routes, for their names differ. */
  lemma TwoBestPairs(c: Cluster, hr: HTTPRoute, i: nat, j: nat, a: nat, b: nat, re: Regexes, req: Request)
    requires BestPair(c, hr, i, j, re, req) && BestPair(c, hr, a, b, re, req) && !(i == a && j == b) && req.path != ""
    ensures exists x, y ::
              Maximal(Expanded(c, hr).routes, re, req, x) && Maximal(Expanded(c, hr).routes, re, req, y) && x != y
  {
    MaximalIsBest(c, hr, i, j, re, req);
    MaximalIsBest(c, hr, a, b, re, req);
    var x, y := Compiled(c, hr, i, j).route.value, Compiled(c, hr, a, b).route.value;
    CompiledName(c, hr, i, j);
    CompiledName(c, hr, a, b);
    if x == y { RouteNameInjective(hr.namespace, hr.name, i, j, a, b); }
  }

  /** Ties happen: of two rules with one match, either may answer, although the first should. */
  lemma SecondRuleMayAnswer(c: Cluster, m: HTTPRouteMatch, refs: seq<BackendRef>, re: Regexes, req: Request)
    returns (s: seq<Route>)
    requires Translatable(m) && Takes(m, re, req) && req.path != ""
    ensures var hr := TwoMatches(m, m, refs);
      && BestPair(c, hr, 0, 0, re, req) && FirstBest(c, hr, 2, 0, 0, 0, re, req)
      && IsSortOf(Expanded(c, hr).routes, s) && FirstMatch(s, re, req) == Compiled(c, hr, 1, 0).route
      && Compiled(c, hr, 1, 0).route != Compiled(c, hr, 0, 0).route
  {
    var hr := TwoMatches(m, m, refs);
    assert forall i, j :: IsPair(hr, i, j) ==> (i == 0 || i == 1) && j == 0 && MatchAt(hr, i, j) == m;
    forall i, j | IsPair(hr, i, j) ensures Serves(c, hr, i, j, re, req) && BestPair(c, hr, i, j, re, req) {
      TwinIsBest(c, m, refs, i, j, re, req);
    }
    assert BestPair(c, hr, 1, 0, re, req);
    MaximalIsBest(c, hr, 1, 0, re, req);
    s := SortThatAnswers(Expanded(c, hr).routes, re, req, Compiled(c, hr, 1, 0).route.value);
    CompiledName(c, hr, 0, 0);
    CompiledName(c, hr, 1, 0);
    if Compiled(c, hr, 1, 0).route == Compiled(c, hr, 0, 0).route {
      RouteNameInjective(hr.namespace, hr.name, 1, 0, 0, 0);
    }
  }

  lemma TwinIsBest(c: Cluster, m: HTTPRouteMatch, refs: seq<BackendRef>, i: nat, j: nat, re: Regexes, req: Request)
    requires Translatable(m) && Takes(m, re, req) && IsPair(TwoMatches(m, m, refs), i, j)
    ensures Serves(c, TwoMatches(m, m, refs), i, j, re, req) && BestPair(c, TwoMatches(m, m, refs), i, j, re, req)
  {
    var hr := TwoMatches(m, m, refs);
    TwinPair(c, m, refs, i, j);
    forall a, b | IsPair(hr, a, b) && Serves(c, hr, a, b, re, req) ensures !Precedes(c, hr, a, b, hr, i, j) {
      TwinPair(c, m, refs, a, b);
      SameMatchTies(c, hr, a, b, i, j);
    }
  }

  /** Pairs with one match and no rewrite tie. */
  lemma SameMatchTies(c: Cluster, hr: HTTPRoute, a: nat, b: nat, i: nat, j: nat)
    requires IsPair(hr, a, b) && IsPair(hr, i, j)
    requires MatchAt(hr, a, b) == MatchAt(hr, i, j) && Translatable(MatchAt(hr, i, j))
    requires !Switched(c, hr, a, b) && !Switched(c, hr, i, j)
    ensures !Precedes(c, hr, a, b, hr, i, j)
  {
  }

  lemma TwinPair(c: Cluster, m: HTTPRouteMatch, refs: seq<BackendRef>, i: nat, j: nat)
    requires IsPair(TwoMatches(m, m, refs), i, j)
    ensures MatchAt(TwoMatches(m, m, refs), i, j) == m && !Switched(c, TwoMatches(m, m, refs), i, j)
  {
    assert FiltersOf([]) == NO_FILTERS;
  }
}
