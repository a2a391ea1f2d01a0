/** Header modifiers of a rule: what the backend and the client get to see, header by header. */
module HeaderModifiers {
  import opened Text
  import opened GatewayApi
  import opened EnvoyApi
  import opened RouteTranslation
  import opened RouteProperties

  // ----- what a rule asks for -----

  /** Setting a header gives it one value, the last one set. */
  function AfterSets(values: seq<string>, name: string, hs: seq<HTTPHeader>): seq<string> {
    if hs == [] then values
    else if ToLower(hs[|hs| - 1].name) == name then [hs[|hs| - 1].value]
    else AfterSets(values, name, hs[..|hs| - 1])
  }

  /** The values that are added to a header. */
  function Added(name: string, hs: seq<HTTPHeader>): seq<string> {
    if hs == [] then []
    else Added(name, hs[..|hs| - 1]) + if ToLower(hs[|hs| - 1].name) == name then [hs[|hs| - 1].value] else []
  }

  /** One modifier sets, adds and removes. */
  function Asked(values: seq<string>, name: string, f: HTTPHeaderFilter): seq<string> {
    if ListsHeader(f.remove, name) then [] else AfterSets(values, name, f.set_) + Added(name, f.add)
  }

  /** A list of modifiers, one after the other. */
  function AllAsked(values: seq<string>, name: string, ms: seq<HTTPHeaderFilter>): seq<string> {
    if ms == [] then values else Asked(AllAsked(values, name, ms[..|ms| - 1]), name, ms[|ms| - 1])
  }

  predicate NoRedirectIn(fs: seq<HTTPRouteFilter>) { forall f :: f in fs ==> !(f.RequestRedirect? && f.redirect.Some?) }

  /** The request modifiers of a rule before its first redirect. */
  function RequestModifiers(fs: seq<HTTPRouteFilter>): seq<HTTPHeaderFilter> {
    if fs == [] then []
    else
      var front, last := fs[..|fs| - 1], fs[|fs| - 1];
      RequestModifiers(front) +
      if NoRedirectIn(front) && last.RequestHeaderModifier? && last.request.Some? then [last.request.value] else []
  }

  /** The response modifiers of a rule before its first redirect. */
  function ResponseModifiers(fs: seq<HTTPRouteFilter>): seq<HTTPHeaderFilter> {
    if fs == [] then []
    else
      var front, last := fs[..|fs| - 1], fs[|fs| - 1];
      ResponseModifiers(front) +
      if NoRedirectIn(front) && last.ResponseHeaderModifier? && last.response.Some? then [last.response.value] else []
  }

  // ----- what the compiled route says -----

  function OptionsOf(ms: seq<HTTPHeaderFilter>): seq<HeaderValueOption> {
    if ms == [] then [] else OptionsOf(ms[..|ms| - 1]) + HeaderOptions(ms[|ms| - 1])
  }

  function RemovesOf(ms: seq<HTTPHeaderFilter>): seq<string> {
    if ms == [] then [] else RemovesOf(ms[..|ms| - 1]) + ms[|ms| - 1].remove
  }

  lemma OneMore(ms: seq<HTTPHeaderFilter>, f: HTTPHeaderFilter)
    ensures OptionsOf(ms + [f]) == OptionsOf(ms) + HeaderOptions(f) && RemovesOf(ms + [f]) == RemovesOf(ms) + f.remove
  {
    assert (ms + [f])[..|ms|] == ms;
  }

  /** The options and removals of a rule are those of its modifiers, in order. */
  lemma {:induction false} FiltersCollect(fs: seq<HTTPRouteFilter>)
    ensures FiltersOf(fs).redirect.None? <==> NoRedirectIn(fs)
    ensures FiltersOf(fs).requestAdd == OptionsOf(RequestModifiers(fs))
    ensures FiltersOf(fs).requestRemove == RemovesOf(RequestModifiers(fs))
    ensures FiltersOf(fs).responseAdd == OptionsOf(ResponseModifiers(fs))
    ensures FiltersOf(fs).responseRemove == RemovesOf(ResponseModifiers(fs))
  {
    if fs != [] {
      var front, last := fs[..|fs| - 1], fs[|fs| - 1];
      FiltersCollect(front);
      assert fs == front + [last];
      CollectRequest(front, last);
      CollectResponse(front, last);
    }
  }

  lemma CollectRequest(front: seq<HTTPRouteFilter>, last: HTTPRouteFilter)
    ensures var ms := RequestModifiers(front + [last]);
      if NoRedirectIn(front) && last.RequestHeaderModifier? && last.request.Some?
      then OptionsOf(ms) == OptionsOf(RequestModifiers(front)) + HeaderOptions(last.request.value)
           && RemovesOf(ms) == RemovesOf(RequestModifiers(front)) + last.request.value.remove
      else ms == RequestModifiers(front)
  {
    assert (front + [last])[..|front|] == front;
    if last.RequestHeaderModifier? && last.request.Some? { OneMore(RequestModifiers(front), last.request.value); }
  }

  lemma CollectResponse(front: seq<HTTPRouteFilter>, last: HTTPRouteFilter)
    ensures var ms := ResponseModifiers(front + [last]);
      if NoRedirectIn(front) && last.ResponseHeaderModifier? && last.response.Some?
      then OptionsOf(ms) == OptionsOf(ResponseModifiers(front)) + HeaderOptions(last.response.value)
           && RemovesOf(ms) == RemovesOf(ResponseModifiers(front)) + last.response.value.remove
      else ms == ResponseModifiers(front)
  {
    assert (front + [last])[..|front|] == front;
    if last.ResponseHeaderModifier? && last.response.Some? { OneMore(ResponseModifiers(front), last.response.value); }
  }

  lemma {:induction false} AfterAppended(values: seq<string>, name: string, a: seq<HeaderValueOption>,
                                         b: seq<HeaderValueOption>)
    ensures AfterOptions(values, name, a + b) == AfterOptions(AfterOptions(values, name, a), name, b)
  {
    if b == [] {
      assert a + b == a;
    } else {
      assert (a + b)[..|a + b| - 1] == a + b[..|b| - 1];
      AfterAppended(values, name, a, b[..|b| - 1]);
    }
  }

  function SetOptions(hs: seq<HTTPHeader>): seq<HeaderValueOption> {
    seq(|hs|, i requires 0 <= i < |hs| => HeaderValueOption(hs[i].name, hs[i].value, true))
  }

  function AddOptions(hs: seq<HTTPHeader>): seq<HeaderValueOption> {
    seq(|hs|, i requires 0 <= i < |hs| => HeaderValueOption(hs[i].name, hs[i].value, false))
  }

  lemma {:induction false} SetsDo(values: seq<string>, name: string, hs: seq<HTTPHeader>)
    ensures AfterOptions(values, name, SetOptions(hs)) == AfterSets(values, name, hs)
  {
    if hs != [] {
      assert SetOptions(hs)[..|hs| - 1] == SetOptions(hs[..|hs| - 1]);
      SetsDo(values, name, hs[..|hs| - 1]);
    }
  }

  lemma {:induction false} AddsDo(values: seq<string>, name: string, hs: seq<HTTPHeader>)
    ensures AfterOptions(values, name, AddOptions(hs)) == values + Added(name, hs)
  {
    if hs != [] {
      assert AddOptions(hs)[..|hs| - 1] == AddOptions(hs[..|hs| - 1]);
      AddsDo(values, name, hs[..|hs| - 1]);
    }
  }

  /** The options of one modifier set and add what it asks for. */
  lemma OptionsDo(values: seq<string>, name: string, f: HTTPHeaderFilter)
    ensures AfterOptions(values, name, HeaderOptions(f)) == AfterSets(values, name, f.set_) + Added(name, f.add)
  {
    assert HeaderOptions(f) == SetOptions(f.set_) + AddOptions(f.add);
    AfterAppended(values, name, SetOptions(f.set_), AddOptions(f.add));
    SetsDo(values, name, f.set_);
    AddsDo(AfterSets(values, name, f.set_), name, f.add);
  }

  // ----- when they agree -----

  predicate SetsHeader(f: HTTPHeaderFilter, name: string) { exists h :: h in f.set_ && ToLower(h.name) == name }

  predicate GivesHeader(f: HTTPHeaderFilter, name: string) {
    SetsHeader(f, name) || exists h :: h in f.add && ToLower(h.name) == name
  }

  /** Removing comes first, for this header: nothing gives it a value up to a modifier that removes it, or a later one sets
      it anew. */
  predicate RemovedFirst(ms: seq<HTTPHeaderFilter>, name: string) {
    forall k :: 0 <= k < |ms| && ListsHeader(ms[k].remove, name) ==>
      || (forall i :: 0 <= i <= k ==> !GivesHeader(ms[i], name))
      || (exists i :: k < i < |ms| && SetsHeader(ms[i], name))
  }

  lemma {:induction false} SetsOrKeeps(values: seq<string>, name: string, hs: seq<HTTPHeader>)
    ensures (exists h :: h in hs && ToLower(h.name) == name) ==>
              |AfterSets(values, name, hs)| == 1 && forall w :: AfterSets(w, name, hs) == AfterSets(values, name, hs)
    ensures !(exists h :: h in hs && ToLower(h.name) == name) ==> forall w :: AfterSets(w, name, hs) == w
  {
    if hs != [] {
      SetsOrKeeps(values, name, hs[..|hs| - 1]);
      assert hs == hs[..|hs| - 1] + [hs[|hs| - 1]];
      forall w ensures ToLower(hs[|hs| - 1].name) != name ==> AfterSets(w, name, hs) == AfterSets(w, name, hs[..|hs| - 1]) {
      }
    }
  }

  lemma {:induction false} AddsOrNot(name: string, hs: seq<HTTPHeader>)
    ensures Added(name, hs) != [] <==> exists h :: h in hs && ToLower(h.name) == name
  {
    if hs != [] {
      AddsOrNot(name, hs[..|hs| - 1]);
      assert hs == hs[..|hs| - 1] + [hs[|hs| - 1]];
    }
  }

  /** What the options of a list of modifiers give to an absent header. */
  lemma {:induction false} NothingGiven(ms: seq<HTTPHeaderFilter>, name: string)
    ensures AfterOptions([], name, OptionsOf(ms)) == [] <==> forall i :: 0 <= i < |ms| ==> !GivesHeader(ms[i], name)
  {
    if ms != [] {
      var front, last := ms[..|ms| - 1], ms[|ms| - 1];
      NothingGiven(front, name);
      AfterAppended([], name, OptionsOf(front), HeaderOptions(last));
      OptionsDo(AfterOptions([], name, OptionsOf(front)), name, last);
      SetsOrKeeps(AfterOptions([], name, OptionsOf(front)), name, last.set_);
      AddsOrNot(name, last.add);
    }
  }

  /** What Envoy makes of a header, for a list of modifiers. */
  function Done(values: seq<string>, name: string, ms: seq<HTTPHeaderFilter>): seq<string> {
    EnvoyHeader(values, name, OptionsOf(ms), RemovesOf(ms))
  }

  ghost predicate Agree(ms: seq<HTTPHeaderFilter>, name: string) {
    forall values :: Done(values, name, ms) == AllAsked(values, name, ms)
  }

  lemma ListsMore(a: seq<string>, b: seq<string>, name: string)
    ensures ListsHeader(a + b, name) <==> ListsHeader(a, name) || ListsHeader(b, name)
  {
    if ListsHeader(a, name) {
      var r :| r in a && ToLower(r) == name;
      assert r in a + b;
    }
    if ListsHeader(b, name) {
      var r :| r in b && ToLower(r) == name;
      assert r in a + b;
    }
  }

  /** One more modifier that does not remove the header does the same on both sides. */
  lemma DoneOneMore(values: seq<string>, name: string, ms: seq<HTTPHeaderFilter>)
    requires ms != [] && !ListsHeader(ms[|ms| - 1].remove, name)
    ensures var f := ms[|ms| - 1];
      Done(values, name, ms) == AfterSets(Done(values, name, ms[..|ms| - 1]), name, f.set_) + Added(name, f.add)
  {
    var front, last := ms[..|ms| - 1], ms[|ms| - 1];
    ListsMore(RemovesOf(front), last.remove, name);
    var start := if ListsHeader(RemovesOf(front), name) then [] else values;
    AfterAppended(start, name, OptionsOf(front), HeaderOptions(last));
    OptionsDo(AfterOptions(start, name, OptionsOf(front)), name, last);
  }

  /** One more modifier that removes the header leaves it to Envoy to give it back. */
  lemma DoneRemoved(values: seq<string>, name: string, ms: seq<HTTPHeaderFilter>)
    requires ms != [] && ListsHeader(ms[|ms| - 1].remove, name)
    ensures Done(values, name, ms) == AfterOptions([], name, OptionsOf(ms)) && AllAsked(values, name, ms) == []
  {
    ListsMore(RemovesOf(ms[..|ms| - 1]), ms[|ms| - 1].remove, name);
  }

  lemma RemovedFirstKeeps(ms: seq<HTTPHeaderFilter>, name: string)
    requires ms != []
    ensures var front, last := ms[..|ms| - 1], ms[|ms| - 1];
      RemovedFirst(ms, name) <==>
      if ListsHeader(last.remove, name) then forall i :: 0 <= i < |ms| ==> !GivesHeader(ms[i], name)
      else SetsHeader(last, name) || RemovedFirst(front, name)
  {
    var front, last := ms[..|ms| - 1], ms[|ms| - 1];
    if !ListsHeader(last.remove, name) && !SetsHeader(last, name) {
      forall k | 0 <= k < |front| && ListsHeader(front[k].remove, name)
        ensures (exists i :: k < i < |ms| && SetsHeader(ms[i], name)) <==>
                (exists i :: k < i < |front| && SetsHeader(front[i], name))
      {
      }
    }
  }

  /** Envoy gives a header what a list of modifiers asks for, whatever it was before, exactly when removing comes first. */
  lemma {:induction false} AgreeExactly(ms: seq<HTTPHeaderFilter>, name: string)
    ensures Agree(ms, name) <==> RemovedFirst(ms, name)
  {
    if ms == [] {
      forall values ensures Done(values, name, ms) == AllAsked(values, name, ms) {
      }
    } else {
      AgreeExactly(ms[..|ms| - 1], name);
      RemovedFirstKeeps(ms, name);
      if ListsHeader(ms[|ms| - 1].remove, name) { AgreeRemoved(ms, name); } else { AgreeOneMore(ms, name); }
    }
  }

  lemma AgreeRemoved(ms: seq<HTTPHeaderFilter>, name: string)
    requires ms != [] && ListsHeader(ms[|ms| - 1].remove, name)
    ensures Agree(ms, name) <==> forall i :: 0 <= i < |ms| ==> !GivesHeader(ms[i], name)
  {
    NothingGiven(ms, name);
    forall values { DoneRemoved(values, name, ms); }
    if Agree(ms, name) { assert Done([], name, ms) == AllAsked([], name, ms); }
  }

  lemma AgreeOneMore(ms: seq<HTTPHeaderFilter>, name: string)
    requires ms != [] && !ListsHeader(ms[|ms| - 1].remove, name)
    ensures Agree(ms, name) <==> SetsHeader(ms[|ms| - 1], name) || Agree(ms[..|ms| - 1], name)
  {
    var front, last := ms[..|ms| - 1], ms[|ms| - 1];
    var added := Added(name, last.add);
    forall values
      ensures Done(values, name, ms) == AllAsked(values, name, ms) <==>
              SetsHeader(last, name) || Done(values, name, front) == AllAsked(values, name, front)
    {
      DoneOneMore(values, name, ms);
      SetsOrKeeps(Done(values, name, front), name, last.set_);
      SameRest(Done(values, name, front), AllAsked(values, name, front), added);
    }
    if Agree(ms, name) && !SetsHeader(last, name) {
      forall values ensures Done(values, name, front) == AllAsked(values, name, front) {
        assert Done(values, name, ms) == AllAsked(values, name, ms);
      }
    }
  }

  lemma SameRest(a: seq<string>, b: seq<string>, rest: seq<string>)
    ensures a + rest == b + rest <==> a == b
  {
    if a + rest == b + rest {
      assert |a| == |b|;
      assert a == (a + rest)[..|a|] && b == (b + rest)[..|b|];
    }
  }

  // ----- compiled routes -----

  lemma CompiledHeaders(c: Cluster, hr: HTTPRoute, i: nat, j: nat)
    requires IsPair(hr, i, j) && Compiled(c, hr, i, j).route.Some?
    ensures var r, fs := Compiled(c, hr, i, j).route.value, hr.rules[i].filters;
      && r.requestHeadersToAdd == OptionsOf(RequestModifiers(fs))
      && r.requestHeadersToRemove == RemovesOf(RequestModifiers(fs))
      && r.responseHeadersToAdd == OptionsOf(ResponseModifiers(fs))
      && r.responseHeadersToRemove == RemovesOf(ResponseModifiers(fs))
  {
    FiltersCollect(hr.rules[i].filters);
  }

  /** Every route compiled from a rule gives each request header what the rule's request modifiers ask for, and each
      response header what its response modifiers ask for, exactly when removing comes first among them. */
  lemma HeadersExactly(c: Cluster, hr: HTTPRoute, i: nat, j: nat, name: string)
    requires IsPair(hr, i, j) && Compiled(c, hr, i, j).route.Some?
    ensures var r, fs := Compiled(c, hr, i, j).route.value, hr.rules[i].filters;
      && ((forall values :: EnvoyHeader(values, name, r.requestHeadersToAdd, r.requestHeadersToRemove)
                            == AllAsked(values, name, RequestModifiers(fs)))
          <==> RemovedFirst(RequestModifiers(fs), name))
      && ((forall values :: EnvoyHeader(values, name, r.responseHeadersToAdd, r.responseHeadersToRemove)
                            == AllAsked(values, name, ResponseModifiers(fs)))
          <==> RemovedFirst(ResponseModifiers(fs), name))
  {
    var fs := hr.rules[i].filters;
    CompiledHeaders(c, hr, i, j);
    AgreeExactly(RequestModifiers(fs), name);
    AgreeExactly(ResponseModifiers(fs), name);
  }

  /** It can go wrong: what one modifier sets and the next removes is there again. */
  lemma RemovedHeaderComesBack(c: Cluster, hr: HTTPRoute, i: nat, j: nat, h: HTTPHeader, values: seq<string>)
    requires IsPair(hr, i, j) && Compiled(c, hr, i, j).route.Some?
    requires hr.rules[i].filters == [RequestHeaderModifier(Some(HTTPHeaderFilter([h], [], []))),
                                     RequestHeaderModifier(Some(HTTPHeaderFilter([], [], [h.name])))]
    ensures var r, name := Compiled(c, hr, i, j).route.value, ToLower(h.name);
      && AllAsked(values, name, RequestModifiers(hr.rules[i].filters)) == []
      && EnvoyHeader(values, name, r.requestHeadersToAdd, r.requestHeadersToRemove) == [h.value]
  {
    var fs, name := hr.rules[i].filters, ToLower(h.name);
    var first, second := HTTPHeaderFilter([h], [], []), HTTPHeaderFilter([], [], [h.name]);
    TwoRequestModifiers(first, second);
    CompiledHeaders(c, hr, i, j);
    assert h.name in second.remove;
    DoneRemoved(values, name, [first, second]);
    OnlyFirstGives(first, second);
    OptionsDo([], name, first);
    assert [h][..0] == [];
  }

  lemma TwoRequestModifiers(first: HTTPHeaderFilter, second: HTTPHeaderFilter)
    ensures RequestModifiers([RequestHeaderModifier(Some(first)), RequestHeaderModifier(Some(second))]) == [first, second]
  {
    var a, b := RequestHeaderModifier(Some(first)), RequestHeaderModifier(Some(second));
    assert [a, b][..1] == [a] && [a][..0] == [];
    assert RequestModifiers([a]) == [first];
  }

  lemma OnlyFirstGives(first: HTTPHeaderFilter, second: HTTPHeaderFilter)
    requires second.set_ == [] && second.add == []
    ensures OptionsOf([first, second]) == HeaderOptions(first)
  {
    assert [first, second][..1] == [first] && [first][..0] == [];
    assert OptionsOf([first]) == HeaderOptions(first) && HeaderOptions(second) == [];
  }
}
