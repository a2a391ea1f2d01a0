/** The statuses of routes while a Gateway is built: translating a route reports whether its references resolve. */
module RouteStatuses {
  import opened Text
  import opened GatewayApi
  import opened RouteTranslation
  import opened Attachment
  import opened VirtualHosts

  type ParentStatuses = map<NamespacedName, seq<RouteParentStatus>>

  function StatusesAt(m: ParentStatuses, key: NamespacedName): seq<RouteParentStatus> { if key in m then m[key] else [] }

  // ----- merging one condition -----

  /** Only a parent that accepted the route hears whether its references resolve. */
  function WithCondition(st: RouteParentStatus, c: Condition): RouteParentStatus {
    if IsStatusConditionTrue(st.conditions, Accepted) then st.(conditions := SetStatusCondition(st.conditions, c)) else st
  }

  function Merged(sts: seq<RouteParentStatus>, c: Condition): seq<RouteParentStatus> {
    seq(|sts|, i requires 0 <= i < |sts| => WithCondition(sts[i], c))
  }

  /** The statuses of all routes, shared by all ports of a build. */
  class StatusTable {
    var statuses: ParentStatuses

    constructor (statuses: ParentStatuses)
      ensures this.statuses == statuses
    {
      this.statuses := statuses;
    }

    method Merge(key: NamespacedName, c: Condition)
      modifies this
      ensures statuses == old(statuses)[key := Merged(StatusesAt(old(statuses), key), c)]
    {
      var current := StatusesAt(statuses, key);
      ghost var was := current;
      for i := 0 to |current|
        invariant |current| == |was|
        invariant forall k :: 0 <= k < i ==> current[k] == WithCondition(was[k], c)
        invariant forall k :: i <= k < |was| ==> current[k] == was[k]
      {
        if IsStatusConditionTrue(current[i].conditions, Accepted) {
          current := current[i := current[i].(conditions := SetStatusCondition(current[i].conditions, c))];
        }
      }
      assert current == Merged(was, c);
      statuses := statuses[key := current];
    }
  }

  lemma {:induction false} SetTwice(conditions: seq<Condition>, c: Condition)
    ensures SetStatusCondition(SetStatusCondition(conditions, c), c) == SetStatusCondition(conditions, c)
  {
    if conditions != [] && conditions[0].kind != c.kind {
      SetTwice(conditions[1..], c);
      assert ([conditions[0]] + SetStatusCondition(conditions[1..], c))[1..] == SetStatusCondition(conditions[1..], c);
    }
  }

  /** Merging a condition again changes nothing: a route may be translated for many listeners. */
  lemma MergedTwice(sts: seq<RouteParentStatus>, c: Condition)
    requires c.kind == ResolvedRefs
    ensures Merged(Merged(sts, c), c) == Merged(sts, c)
  {
    forall i | 0 <= i < |sts| ensures Merged(Merged(sts, c), c)[i] == Merged(sts, c)[i] {
      SetTwice(sts[i].conditions, c);
    }
  }

  lemma {:induction false} TranslationCondition(c: Cluster, hr: HTTPRoute, i: nat, j: nat)
    requires i <= |hr.rules| && (j == 0 || (i < |hr.rules| && j <= |MatchesOf(hr.rules[i])|))
    ensures UpTo(c, hr, i, j).condition.kind == ResolvedRefs
    decreases i, j
  {
    if j > 0 { TranslationCondition(c, hr, i, j - 1); }
    else if i > 0 { TranslationCondition(c, hr, i - 1, |MatchesOf(hr.rules[i - 1])|); }
  }

  // ----- merging along the attachments -----

  /** The statuses after the routes of the attachments have been translated, in order. */
  function MergedBy(c: Cluster, m: ParentStatuses, atts: seq<Link>): ParentStatuses {
    if atts == [] then m
    else
      var before, hr := MergedBy(c, m, atts[..|atts| - 1]), atts[|atts| - 1].route;
      before[KeyOf(hr) := Merged(StatusesAt(before, KeyOf(hr)), Expanded(c, hr).condition)]
  }

  lemma MergedOneMore(c: Cluster, m: ParentStatuses, atts: seq<Link>, a: Link)
    ensures var before := MergedBy(c, m, atts);
      MergedBy(c, m, atts + [a]) ==
      before[KeyOf(a.route) := Merged(StatusesAt(before, KeyOf(a.route)), Expanded(c, a.route).condition)]
  {
    var more := atts + [a];
    assert more[..|more| - 1] == atts && more[|more| - 1] == a;
  }

  predicate Translates(atts: seq<Link>, hr: HTTPRoute) { exists a :: a in atts && a.route == hr }

  /** However often a route is translated, its condition is merged once, and no other route's statuses change. */
  lemma {:induction false} MergedAt(c: Cluster, m: ParentStatuses, atts: seq<Link>, hr: HTTPRoute)
    requires forall a :: a in atts && KeyOf(a.route) == KeyOf(hr) ==> a.route == hr
    ensures StatusesAt(MergedBy(c, m, atts), KeyOf(hr)) ==
              if Translates(atts, hr) then Merged(StatusesAt(m, KeyOf(hr)), Expanded(c, hr).condition)
              else StatusesAt(m, KeyOf(hr))
  {
    if atts != [] {
      var front, last := atts[..|atts| - 1], atts[|atts| - 1];
      assert atts == front + [last];
      MergedAt(c, m, front, hr);
      MergedOneMore(c, m, front, last);
      TranslationCondition(c, hr, |hr.rules|, 0);
      MergedTwice(StatusesAt(m, KeyOf(hr)), Expanded(c, hr).condition);
      assert last in atts;
    }
  }

  /** What merging does to one status: an accepted one gets the condition, everything else stays. */
  lemma WithConditionExactly(st: RouteParentStatus, c: Condition)
    requires c.kind == ResolvedRefs
    ensures var r := WithCondition(st, c);
      && r.parentRef == st.parentRef
      && FindCondition(r.conditions, Accepted) == FindCondition(st.conditions, Accepted)
      && var accepted := FindCondition(st.conditions, Accepted);
         FindCondition(r.conditions, ResolvedRefs) ==
           if accepted.Some? && accepted.value.status == ConditionTrue then Some(c)
           else FindCondition(st.conditions, ResolvedRefs)
  {
  }
}
