/** Rewrites and redirects: where a path is forwarded to, and where a client is sent. */
module Rewrites {
  import opened Text
  import opened GatewayApi
  import opened EnvoyApi
  import opened RouteMatching
  import opened Backends
  import opened RouteTranslation
  import opened RouteProperties

  // ----- what rewrites do -----

  /** Of a rule that forwards, the hostname of the last rewrite filter takes effect exactly when this filter also rewrites
      the path; alone it is dropped. */
  lemma HostnameRewriteHonouredExactly(c: Cluster, hr: HTTPRoute, i: nat, j: nat, k: nat)
    requires IsPair(hr, i, j) && Translatable(MatchAt(hr, i, j))
    requires ForwardingOf(c, hr.namespace, hr.rules[i].backendRefs).Ok?
    requires IsLastRewrite(hr.rules[i].filters, k)
    requires var w := hr.rules[i].filters[k].rewrite; w.Some? && w.value.hostname.Some?
    ensures Compiled(c, hr, i, j).route.Some? && Compiled(c, hr, i, j).route.value.action.Forward?
    ensures var f := hr.rules[i].filters[k].rewrite.value;
      Compiled(c, hr, i, j).route.value.action.forward.hostRewrite == f.hostname <==> RewritesPath(f)
  {
    var fs := hr.rules[i].filters;
    NoRedirect(fs);
    LastRewriteDecides(fs, k);
    assert ForwardingOf(c, hr.namespace, hr.rules[i].backendRefs).value.action.hostRewrite == None;
  }

  /** Envoy puts the replacement in the place of the part of the path that the matcher names. */
  function EnvoyRewrite(p: PathSpecifier, prefixRewrite: string, path: string): string
    requires (p.Prefix? && p.prefix <= path) || (p.PathSeparatedPrefix? && p.separated <= path)
  {
    var matched := if p.Prefix? then p.prefix else p.separated;
    if prefixRewrite == "" then path else prefixRewrite + path[|matched|..]
  }

  /** The path the Gateway API asks for: the elements of the replacement followed by the rest of the path. */
  function GatewayRewrite(replacement: string, rest: string): string { TrimSuffix(replacement, "/") + "/" + rest }

  function EmittedPrefix(value: string, replacement: string): PathSpecifier {
    SwitchPrefix(TranslatePath(Some(HTTPPathMatch(Some(PathPrefix), Some(value)))).value, replacement)
  }

  /** A prefix rewrite gives every path below the prefix the path the Gateway API asks for, with no separator
      doubled or dropped, exactly when the replacement ends in "/" (or nothing is to be done at all). */
  lemma RewriteRightExactly(value: string, replacement: string)
    requires value != ""
    ensures (forall rest: string ::
               var path := TrimSuffix(value, "/") + "/" + rest;
               && PathAccepts(EmittedPrefix(value, replacement), iset{}, path)
               && EnvoyRewrite(EmittedPrefix(value, replacement), replacement, path) == GatewayRewrite(replacement, rest))
            <==> HasSuffix(replacement, "/") || (replacement == "" && value == "/")
  {
    var t, p := TrimSuffix(value, "/"), EmittedPrefix(value, replacement);
    forall rest: string
      ensures var path := t + "/" + rest;
        && PathAccepts(p, iset{}, path)
        && (replacement != "" ==> EnvoyRewrite(p, replacement, path) == replacement + rest)
    {
      var path := t + "/" + rest;
      assert replacement != "" ==> p == Prefix(t + "/");
      assert t + "/" <= path;
      assert path[|t + "/"|..] == rest;
    }
    if HasSuffix(replacement, "/") {
      assert replacement == TrimSuffix(replacement, "/") + "/";
    } else {
      var path := t + "/" + "";
      assert PathAccepts(p, iset{}, path);
      assert GatewayRewrite(replacement, "") == replacement + "/";
      if replacement == "" {
        var long := t + "/" + "x";
        assert PathAccepts(p, iset{}, long);
        assert EnvoyRewrite(p, replacement, long) == long;
        assert GatewayRewrite(replacement, "x") == "/x";
        assert |long| == |t| + 2;
      }
    }
  }

  // ----- the path that a compiled route forwards -----

  /** The path that the backend sees: the substitute for all of it, or the replacement for what the matcher names. */
  function ForwardedPath(r: Route, path: string): string
    requires r.action.Forward?
    requires r.action.forward.regexRewrite.None? && r.action.forward.prefixRewrite != "" ==>
               var p := r.routeMatch.pathSpecifier;
               (p.Prefix? && p.prefix <= path) || (p.PathSeparatedPrefix? && p.separated <= path)
  {
    match r.action.forward.regexRewrite
    case Some(substitute) => substitute
    case None =>
      var prefixRewrite := r.action.forward.prefixRewrite;
      if prefixRewrite == "" then path else EnvoyRewrite(r.routeMatch.pathSpecifier, prefixRewrite, path)
  }

  /** Filter k is the last rewrite of a rule that forwards, and modifies the path in this way. */
  predicate RewritesBy(c: Cluster, hr: HTTPRoute, i: nat, j: nat, k: nat, change: HTTPPathModifier) {
    && IsPair(hr, i, j) && Translatable(MatchAt(hr, i, j)) && ForwardingOf(c, hr.namespace, hr.rules[i].backendRefs).Ok?
    && IsLastRewrite(hr.rules[i].filters, k)
    && hr.rules[i].filters[k].rewrite.Some? && hr.rules[i].filters[k].rewrite.value.path == Some(change)
  }

  /** The action and the matcher of such a pair. */
  lemma RewriteCompiled(c: Cluster, hr: HTTPRoute, i: nat, j: nat, k: nat, change: HTTPPathModifier)
    requires RewritesBy(c, hr, i, j, k, change)
    ensures Compiled(c, hr, i, j).route.Some? && Compiled(c, hr, i, j).route.value.action.Forward?
    ensures var r := Compiled(c, hr, i, j).route.value;
      match change
      case ReplaceFullPath(Some(p)) => r.action.forward.regexRewrite == Some(p)
      case ReplacePrefixMatch(Some(p)) =>
        && r.action.forward.regexRewrite == None && r.action.forward.prefixRewrite == p
        && r.routeMatch.pathSpecifier == SwitchPrefix(TranslatePath(MatchAt(hr, i, j).path).value, p)
      case _ => r.action.forward.regexRewrite == None && r.action.forward.prefixRewrite == ""
  {
    var fs := hr.rules[i].filters;
    NoRedirect(fs);
    LastRewriteDecides(fs, k);
    var f := ForwardingOf(c, hr.namespace, hr.rules[i].backendRefs).value;
    assert f.action.regexRewrite == None && f.action.prefixRewrite == "";
  }

  /** The route takes the path that continues the prefix, and forwards it as the Gateway API asks. */
  ghost predicate ForwardsBelow(r: Route, prefix: string, replacement: string, rest: string) {
    var p, path := r.routeMatch.pathSpecifier, TrimSuffix(prefix, "/") + "/" + rest;
    && r.action.Forward? && r.action.forward.regexRewrite.None?
    && (p.Prefix? || p.PathSeparatedPrefix?) && PathAccepts(p, iset{}, path)
    && ForwardedPath(r, path) == GatewayRewrite(replacement, rest)
  }

  /** A route compiled from a rule that replaces the prefix forwards every path below the prefix as the Gateway API asks,
      exactly when the replacement ends in "/" (or nothing is to be done at all). */
  lemma ForwardedRightExactly(c: Cluster, hr: HTTPRoute, i: nat, j: nat, k: nat, prefix: string, replacement: string)
    requires RewritesBy(c, hr, i, j, k, ReplacePrefixMatch(Some(replacement))) && prefix != ""
    requires var path := MatchAt(hr, i, j).path;
      path.Some? && PathTypeOf(path.value) == PathPrefix && path.value.value == Some(prefix)
    ensures Compiled(c, hr, i, j).route.Some?
    ensures (forall rest: string :: ForwardsBelow(Compiled(c, hr, i, j).route.value, prefix, replacement, rest)) <==>
            HasSuffix(replacement, "/") || (replacement == "" && prefix == "/")
  {
    RewriteCompiled(c, hr, i, j, k, ReplacePrefixMatch(Some(replacement)));
    var r := Compiled(c, hr, i, j).route.value;
    RewriteRightExactly(prefix, replacement);
    forall rest: string
      ensures ForwardsBelow(r, prefix, replacement, rest) <==>
        var path := TrimSuffix(prefix, "/") + "/" + rest;
        && PathAccepts(EmittedPrefix(prefix, replacement), iset{}, path)
        && EnvoyRewrite(EmittedPrefix(prefix, replacement), replacement, path) == GatewayRewrite(replacement, rest)
    {
      assert r.routeMatch.pathSpecifier == EmittedPrefix(prefix, replacement);
    }
  }

  /** A route compiled from a rule that replaces the full path forwards every path as this one. */
  lemma FullPathForwarded(c: Cluster, hr: HTTPRoute, i: nat, j: nat, k: nat, p: string, path: string)
    requires RewritesBy(c, hr, i, j, k, ReplaceFullPath(Some(p)))
    ensures Compiled(c, hr, i, j).route.Some? && Compiled(c, hr, i, j).route.value.action.Forward?
    ensures Compiled(c, hr, i, j).route.value.action.forward.regexRewrite.Some?
    ensures ForwardedPath(Compiled(c, hr, i, j).route.value, path) == p
  {
    RewriteCompiled(c, hr, i, j, k, ReplaceFullPath(Some(p)));
  }

  lemma {:induction false} NoRewriteIn(fs: seq<HTTPRouteFilter>)
    requires forall f :: f in fs ==> !f.URLRewrite?
    ensures FiltersOf(fs).rewrite == None
  {
    if fs != [] {
      assert fs[|fs| - 1] in fs;
      NoRewriteIn(fs[..|fs| - 1]);
    }
  }

  /** Without rewrites, path and host are forwarded as they are. */
  lemma PathKept(c: Cluster, hr: HTTPRoute, i: nat, j: nat, path: string)
    requires IsPair(hr, i, j) && Compiled(c, hr, i, j).route.Some? && Compiled(c, hr, i, j).route.value.action.Forward?
    requires forall f :: f in hr.rules[i].filters ==> !f.URLRewrite?
    ensures var r := Compiled(c, hr, i, j).route.value;
      && r.action.forward.regexRewrite == None && r.action.forward.prefixRewrite == ""
      && r.action.forward.hostRewrite == None
      && ForwardedPath(r, path) == path
  {
    NoRewriteIn(hr.rules[i].filters);
  }

  // ----- what redirects do -----

  /** Where a client is sent; no port means the one that belongs to the scheme. */
  datatype Location = Location(scheme: string, host: string, path: string, port: Option<int>)

  /** Envoy replaces what the redirect names, and leaves scheme, host and path as they are otherwise. */
  function EnvoyLocation(r: RedirectAction, p: PathSpecifier, scheme: string, host: string, path: string): Location
    requires r.pathRedirect.None? && r.prefixRewrite.Some? ==>
               (p.Prefix? && p.prefix <= path) || (p.PathSeparatedPrefix? && p.separated <= path)
  {
    Location(match r.scheme { case None => scheme case Some(s) => s },
             if r.host == "" then host else r.host,
             if r.pathRedirect.Some? then r.pathRedirect.value
             else if r.prefixRewrite.Some? then EnvoyRewrite(p, r.prefixRewrite.value, path)
             else path,
             if r.port == 0 then None else Some(r.port))
  }

  /** What the filter asks for, when it leaves the path or replaces all of it. */
  function AskedLocation(f: HTTPRequestRedirectFilter, scheme: string, host: string, path: string): Location {
    Location(match f.scheme { case None => scheme case Some(s) => s },
             match f.hostname { case None => host case Some(h) => h },
             match f.path { case Some(ReplaceFullPath(Some(p))) => p case _ => path },
             match f.port { case None => None case Some(q) => Some(q) })
  }

  /** The first redirect of a rule sends every request where its filter asks, exactly when the filter names no empty host
      and no port that is not positive. */
  lemma RedirectLocationExactly(c: Cluster, hr: HTTPRoute, i: nat, j: nat, k: nat)
    requires IsPair(hr, i, j) && Translatable(MatchAt(hr, i, j))
    requires var fs := hr.rules[i].filters; k < |fs| && Redirects(fs[k]) && forall x :: 0 <= x < k ==> !Redirects(fs[x])
    requires var path := hr.rules[i].filters[k].redirect.value.path; !(path.Some? && path.value.ReplacePrefixMatch?)
    ensures Compiled(c, hr, i, j).route.Some? && Compiled(c, hr, i, j).route.value.action.Redirect?
    ensures var f, r := hr.rules[i].filters[k].redirect.value, Compiled(c, hr, i, j).route.value;
      && r.action.redirect.prefixRewrite.None?
      && ((forall scheme, host, path ::
             EnvoyLocation(r.action.redirect, r.routeMatch.pathSpecifier, scheme, host, path)
             == AskedLocation(f, scheme, host, path))
          <==> f.hostname != Some("") && (f.port.Some? ==> f.port.value > 0))
  {
    FirstRedirectDecides(hr.rules[i].filters, k);
    var f, r := hr.rules[i].filters[k].redirect.value, Compiled(c, hr, i, j).route.value;
    LocationExactly(f, TranslateRedirect(f), r.routeMatch.pathSpecifier);
  }

  lemma LocationExactly(f: HTTPRequestRedirectFilter, r: RedirectAction, p: PathSpecifier)
    requires r == TranslateRedirect(f) && !(f.path.Some? && f.path.value.ReplacePrefixMatch?)
    ensures r.prefixRewrite.None?
    ensures (forall scheme, host, path ::
               EnvoyLocation(r, p, scheme, host, path) == AskedLocation(f, scheme, host, path))
            <==> f.hostname != Some("") && (f.port.Some? ==> f.port.value > 0)
  {
    if !(f.hostname != Some("") && (f.port.Some? ==> f.port.value > 0)) {
      assert EnvoyLocation(r, p, "", "x", "") != AskedLocation(f, "", "x", "");
    }
  }

  /** A rule that forwards, but whose references do not resolve to any traffic, answers 500. */
  lemma UnresolvedAnswers500(c: Cluster, hr: HTTPRoute, i: nat, j: nat)
    requires IsPair(hr, i, j) && Translatable(MatchAt(hr, i, j))
    requires (forall f :: f in hr.rules[i].filters ==> !Redirects(f))
    requires ForwardingOf(c, hr.namespace, hr.rules[i].backendRefs).Err?
    ensures Compiled(c, hr, i, j).route.Some? && Compiled(c, hr, i, j).route.value.action == DirectResponse(500)
  {
    NoRedirect(hr.rules[i].filters);
  }

  // ----- prefix redirects -----

  /** Filter k is the first redirect of the rule, and replaces the prefix. */
  predicate RedirectsPrefix(fs: seq<HTTPRouteFilter>, k: nat, replacement: string) {
    && k < |fs| && Redirects(fs[k]) && (forall x :: 0 <= x < k ==> !Redirects(fs[x]))
    && fs[k].redirect.value.path == Some(ReplacePrefixMatch(Some(replacement)))
  }

  /** The matcher and the path of a redirect, for a path below the prefix. */
  ghost predicate RedirectsBelow(r: Route, prefix: string, replacement: string, rest: string) {
    var p, path := r.routeMatch.pathSpecifier, TrimSuffix(prefix, "/") + "/" + rest;
    && r.action.Redirect? && r.action.redirect.prefixRewrite.Some? && r.action.redirect.pathRedirect.None?
    && (p.Prefix? || p.PathSeparatedPrefix?) && PathAccepts(p, iset{}, path)
    && EnvoyRewrite(p, r.action.redirect.prefixRewrite.value, path) == GatewayRewrite(replacement, rest)
  }

  /** The matcher of a redirect keeps the separated prefix, so every path below the prefix is redirected to what the
      Gateway API asks for exactly when the replacement does not bring a separator of its own; for the prefix "/" it is
      the other way round. */
  lemma RedirectRightExactly(c: Cluster, hr: HTTPRoute, i: nat, j: nat, k: nat, prefix: string, replacement: string)
    requires IsPair(hr, i, j) && Translatable(MatchAt(hr, i, j)) && RedirectsPrefix(hr.rules[i].filters, k, replacement)
    requires var path := MatchAt(hr, i, j).path;
      path.Some? && PathTypeOf(path.value) == PathPrefix && path.value.value == Some(prefix) && prefix != ""
    ensures Compiled(c, hr, i, j).route.Some?
    ensures (forall rest: string :: RedirectsBelow(Compiled(c, hr, i, j).route.value, prefix, replacement, rest)) <==>
            if prefix == "/" then replacement == "" || HasSuffix(replacement, "/")
            else replacement != "" && !HasSuffix(replacement, "/")
  {
    FirstRedirectDecides(hr.rules[i].filters, k);
    var r := Compiled(c, hr, i, j).route.value;
    forall rest ensures RedirectsBelow(r, prefix, replacement, rest) <==>
                        RedirectedBelow(prefix, replacement, rest) == GatewayRewrite(replacement, rest)
    {
      RedirectedBelowIs(r, prefix, replacement, rest);
    }
    RedirectedRightExactly(prefix, replacement);
  }

  /** Where a path below the prefix is sent. */
  function RedirectedBelow(prefix: string, replacement: string, rest: string): string {
    if replacement == "" then TrimSuffix(prefix, "/") + "/" + rest
    else replacement + (if prefix == "/" then rest else "/" + rest)
  }

  lemma RedirectedBelowIs(r: Route, prefix: string, replacement: string, rest: string)
    requires prefix != "" && r.action.Redirect? && r.action.redirect.prefixRewrite == Some(replacement)
    requires r.action.redirect.pathRedirect.None?
    requires TranslatePath(Some(HTTPPathMatch(Some(PathPrefix), Some(prefix)))) == Some(r.routeMatch.pathSpecifier)
    ensures RedirectsBelow(r, prefix, replacement, rest) <==>
            RedirectedBelow(prefix, replacement, rest) == GatewayRewrite(replacement, rest)
  {
    var t := TrimSuffix(prefix, "/");
    var path := t + "/" + rest;
    assert t + "/" <= path && t <= path;
    assert path[|t|..] == "/" + rest && path[|t| + 1..] == rest;
    assert prefix == "/" ==> t == "" && path == "/" + rest;
  }

  lemma RedirectedRightExactly(prefix: string, replacement: string)
    requires prefix != ""
    ensures (forall rest :: RedirectedBelow(prefix, replacement, rest) == GatewayRewrite(replacement, rest)) <==>
            if prefix == "/" then replacement == "" || HasSuffix(replacement, "/")
            else replacement != "" && !HasSuffix(replacement, "/")
  {
    var u := TrimSuffix(replacement, "/");
    forall rest ensures RedirectedBelow(prefix, replacement, rest) == GatewayRewrite(replacement, rest) <==>
      if prefix == "/" then replacement == "" || HasSuffix(replacement, "/")
      else replacement != "" && !HasSuffix(replacement, "/")
    {
      assert |GatewayRewrite(replacement, rest)| == |u| + 1 + |rest|;
      if HasSuffix(replacement, "/") {
        assert replacement == u + "/";
        assert replacement + rest == u + "/" + rest;
      }
      assert u + "/" + rest == u + ("/" + rest);
      assert TrimSuffix(prefix, "/") == "" <==> prefix == "/";
    }
    if forall rest :: RedirectedBelow(prefix, replacement, rest) == GatewayRewrite(replacement, rest) {
      assert RedirectedBelow(prefix, replacement, "") == GatewayRewrite(replacement, "");
    }
  }
}
