/** One HTTPRoute match and the Envoy matcher it is translated to: when they select the same requests. */
module RouteMatching {
  import opened Text
  import opened GatewayApi
  import opened EnvoyApi

  // ----- translation -----

  function PathTypeOf(p: HTTPPathMatch): PathMatchType {
    match p.matchType case None => PathPrefix case Some(t) => t
  }

  function HeaderTypeOf(h: HTTPHeaderMatch): ValueMatchType {
    match h.matchType case None => ExactValue case Some(t) => t
  }

  /** None where the path match is rejected: no value, or a type the translator does not know. */
  function TranslatePath(path: Option<HTTPPathMatch>): Option<PathSpecifier> {
    match path
    case None => Some(Prefix("/"))
    case Some(p) =>
      if p.value.None? then None
      else match PathTypeOf(p)
        case ExactPath => Some(Path(p.value.value))
        case PathPrefix =>
          if p.value.value == "/" then Some(Prefix("/"))
          else Some(PathSeparatedPrefix(TrimSuffix(p.value.value, "/")))
        case RegularExpressionPath => Some(SafeRegex(p.value.value))
        case UnknownPathType(_) => None
  }

  function TranslateHeader(h: HTTPHeaderMatch): Option<HeaderMatcher> {
    match HeaderTypeOf(h)
    case ExactValue => Some(HeaderMatcher(h.name, Exact(h.value)))
    case RegularExpressionValue => Some(HeaderMatcher(h.name, Regex(h.value)))
    case UnknownValueType(_) => None
  }

  function TranslateQuery(q: HTTPQueryParamMatch): QueryParameterMatcher {
    QueryParameterMatcher(q.name, q.value)
  }

  predicate Translatable(m: HTTPRouteMatch) {
    TranslatePath(m.path).Some? && forall h :: h in m.headers ==> TranslateHeader(h).Some?
  }

  /** The matcher for a match that can be translated. */
  function Translated(m: HTTPRouteMatch): RouteMatch
    requires Translatable(m)
  {
    RouteMatch(
      TranslatePath(m.path).value,
      seq(|m.headers|, i requires 0 <= i < |m.headers| => TranslateHeader(m.headers[i]).value),
      seq(|m.queryParams|, i requires 0 <= i < |m.queryParams| => TranslateQuery(m.queryParams[i])))
  }

  const REFS_RESOLVED := Condition(ResolvedRefs, ConditionTrue, ReasonResolvedRefs)

  function FailureCondition(reason: Reason): Condition { Condition(ResolvedRefs, ConditionFalse, reason) }

  method TranslateHTTPRouteMatch(m: HTTPRouteMatch) returns (routeMatch: Option<RouteMatch>, condition: Condition)
    ensures routeMatch == if Translatable(m) then Some(Translated(m)) else None
    ensures condition == if Translatable(m) then REFS_RESOLVED else FailureCondition(ReasonUnsupportedValue)
  {
    var specifier := TranslatePath(m.path);
    if specifier.None? {
      return None, FailureCondition(ReasonUnsupportedValue);
    }
    var headers: seq<HeaderMatcher> := [];
    for i := 0 to |m.headers|
      invariant |headers| == i
      invariant forall k :: 0 <= k < i ==> TranslateHeader(m.headers[k]) == Some(headers[k])
    {
      var headerMatcher := TranslateHeader(m.headers[i]);
      if headerMatcher.None? {
        assert m.headers[i] in m.headers;
        return None, FailureCondition(ReasonUnsupportedValue);
      }
      headers := headers + [headerMatcher.value];
    }
    var queryParameters: seq<QueryParameterMatcher> := [];
    for i := 0 to |m.queryParams|
      invariant |queryParameters| == i
      invariant forall k :: 0 <= k < i ==> queryParameters[k] == TranslateQuery(m.queryParams[k])
    {
      queryParameters := queryParameters + [TranslateQuery(m.queryParams[i])];
    }
    assert Translatable(m);
    assert headers == Translated(m).headers && queryParameters == Translated(m).queryParameters;
    routeMatch := Some(RouteMatch(specifier.value, headers, queryParameters));
    condition := REFS_RESOLVED;
  }

  // ----- what an HTTPRoute match means -----

  /** PathPrefix compares the "/"-separated elements of value and path, ignoring one trailing "/" of the value. */
  ghost predicate ElementPrefix(value: string, path: string) {
    Split(TrimSuffix(value, "/"), '/') <= Split(path, '/')
  }

  /** A match without a path is a prefix match on "/", and one without a type is a prefix match. */
  ghost predicate PathMatches(path: Option<HTTPPathMatch>, re: Regexes, text: string) {
    match path
    case None => ElementPrefix("/", text)
    case Some(p) =>
      p.value.Some? &&
      match p.matchType
      case None => ElementPrefix(p.value.value, text)
      case Some(PathPrefix) => ElementPrefix(p.value.value, text)
      case Some(ExactPath) => text == p.value.value
      case Some(RegularExpressionPath) => (p.value.value, text) in re
      case Some(UnknownPathType(_)) => false
  }

  /** Of several header matches with equivalent names only the first counts; names are case-insensitive. */
  function FirstHeaders(hs: seq<HTTPHeaderMatch>): map<string, HTTPHeaderMatch> {
    if hs == [] then map[] else FirstHeaders(hs[1..])[ToLower(hs[0].name) := hs[0]]
  }

  /** Of several query parameter matches with one name only the first counts. */
  function FirstParams(qs: seq<HTTPQueryParamMatch>): map<string, HTTPQueryParamMatch> {
    if qs == [] then map[] else FirstParams(qs[1..])[qs[0].name := qs[0]]
  }

  /** A header match without a type is exact. */
  ghost predicate HeaderHolds(h: HTTPHeaderMatch, re: Regexes, text: string) {
    match h.matchType
    case None => text == h.value
    case Some(ExactValue) => text == h.value
    case Some(RegularExpressionValue) => (h.value, text) in re
    case Some(UnknownValueType(_)) => false
  }

  predicate ExactParamType(q: HTTPQueryParamMatch) {
    match q.matchType case None => true case Some(t) => t == ExactParam
  }

  ghost predicate ParamHolds(q: HTTPQueryParamMatch, re: Regexes, text: string) {
    if ExactParamType(q) then text == q.value else (q.value, text) in re
  }

  /** The Gateway API meaning of a match: path, method, headers and query parameters, ANDed together. */
  ghost predicate Matches(m: HTTPRouteMatch, re: Regexes, req: Request) {
    && PathMatches(m.path, re, req.path)
    && (m.httpMethod.Some? ==> req.httpMethod == m.httpMethod.value)
    && (forall n :: n in FirstHeaders(m.headers) ==>
          n in req.headers && HeaderHolds(FirstHeaders(m.headers)[n], re, req.headers[n]))
    && (forall n :: n in FirstParams(m.queryParams) ==>
          n in req.query && ParamHolds(FirstParams(m.queryParams)[n], re, req.query[n]))
  }

  // ----- paths -----

  /** The emitted path matcher selects, for every value, exactly the paths whose elements begin with the
      value's elements. A request path is never empty (section 8.3.1 of RFC 9113). */
  lemma PrefixMeansElements(value: string, re: Regexes, path: string)
    requires path != ""
    ensures PathAccepts(TranslatePath(Some(HTTPPathMatch(Some(PathPrefix), Some(value)))).value, re, path)
            <==> ElementPrefix(value, path)
  {
    SplitPrefix(TrimSuffix(value, "/"), path, '/');
    if value == "/" {
      assert TrimSuffix(value, "/") == "";
      assert "" + ['/'] == "/";
    }
  }

  lemma PathPreserved(path: Option<HTTPPathMatch>, re: Regexes, text: string)
    requires TranslatePath(path).Some? && text != ""
    ensures PathAccepts(TranslatePath(path).value, re, text) <==> PathMatches(path, re, text)
  {
    match path
    case None => PrefixMeansElements("/", re, text);
    case Some(p) =>
      if PathTypeOf(p) == PathPrefix { PrefixMeansElements(p.value.value, re, text); }
  }

  // ----- headers and query parameters -----

  lemma {:induction false} FirstHeadersAreEntries(hs: seq<HTTPHeaderMatch>)
    ensures forall h :: h in hs ==> ToLower(h.name) in FirstHeaders(hs)
    ensures forall n :: n in FirstHeaders(hs) ==> FirstHeaders(hs)[n] in hs && ToLower(FirstHeaders(hs)[n].name) == n
  {
    if hs != [] {
      FirstHeadersAreEntries(hs[1..]);
      assert hs == [hs[0]] + hs[1..];
    }
  }

  lemma {:induction false} FirstParamsAreEntries(qs: seq<HTTPQueryParamMatch>)
    ensures forall q :: q in qs ==> q.name in FirstParams(qs)
    ensures forall n :: n in FirstParams(qs) ==> FirstParams(qs)[n] in qs && FirstParams(qs)[n].name == n
  {
    if qs != [] {
      FirstParamsAreEntries(qs[1..]);
      assert qs == [qs[0]] + qs[1..];
    }
  }

  /** What the emitted matcher asks of the headers: every entry of the match, not only the first of a name. */
  lemma HeadersAccepted(m: HTTPRouteMatch, re: Regexes, req: Request)
    requires Translatable(m)
    ensures (forall h :: h in Translated(m).headers ==> HeaderAccepts(h, re, req)) <==>
            (forall h :: h in m.headers ==>
               ToLower(h.name) in req.headers && HeaderHolds(h, re, req.headers[ToLower(h.name)]))
  {
    var out := Translated(m).headers;
    if forall h :: h in out ==> HeaderAccepts(h, re, req) {
      forall h | h in m.headers
        ensures ToLower(h.name) in req.headers && HeaderHolds(h, re, req.headers[ToLower(h.name)])
      {
        var i :| 0 <= i < |m.headers| && m.headers[i] == h;
        assert HeaderAccepts(out[i], re, req);
      }
    }
  }

  lemma QueryAccepted(m: HTTPRouteMatch, re: Regexes, req: Request)
    requires Translatable(m)
    ensures (forall q :: q in Translated(m).queryParameters ==> QueryAccepts(q, req)) <==>
            (forall q :: q in m.queryParams ==> q.name in req.query && req.query[q.name] == q.value)
  {
    var out := Translated(m).queryParameters;
    if forall q :: q in out ==> QueryAccepts(q, req) {
      forall q | q in m.queryParams ensures q.name in req.query && req.query[q.name] == q.value {
        var i :| 0 <= i < |m.queryParams| && m.queryParams[i] == q;
        assert QueryAccepts(out[i], req);
      }
    }
  }

  /** The requests that the translation of a match takes: the path as the API says, every header entry, every query
      parameter entry literally, and any method. */
  ghost predicate Takes(m: HTTPRouteMatch, re: Regexes, req: Request) {
    && PathMatches(m.path, re, req.path)
    && (forall h :: h in m.headers ==>
          ToLower(h.name) in req.headers && HeaderHolds(h, re, req.headers[ToLower(h.name)]))
    && (forall q :: q in m.queryParams ==> q.name in req.query && req.query[q.name] == q.value)
  }

  /** The emitted matcher accepts exactly these requests, for every match that is not rejected. */
  lemma TakenExactly(m: HTTPRouteMatch, re: Regexes, req: Request)
    requires Translatable(m) && req.path != ""
    ensures Accepts(Translated(m), re, req) <==> Takes(m, re, req)
  {
    PathPreserved(m.path, re, req.path);
    HeadersAccepted(m, re, req);
    QueryAccepted(m, re, req);
  }

  // ----- when the translation is faithful -----

  /** Every header entry asks the same as the first entry of its name. */
  predicate HeadersAgree(hs: seq<HTTPHeaderMatch>) {
    forall h :: h in hs ==>
      ToLower(h.name) in FirstHeaders(hs) &&
      var f := FirstHeaders(hs)[ToLower(h.name)];
      HeaderTypeOf(h) == HeaderTypeOf(f) && h.value == f.value
  }

  /** The entry that counts for a name is an Exact match, and later entries repeat its value. */
  predicate ParamsAgree(qs: seq<HTTPQueryParamMatch>) {
    forall q :: q in qs ==>
      q.name in FirstParams(qs) &&
      var f := FirstParams(qs)[q.name];
      ExactParamType(f) && q.value == f.value
  }

  /** An Exact match on the empty path selects no request at all. */
  predicate DeadPath(path: Option<HTTPPathMatch>) {
    path.Some? && PathTypeOf(path.value) == ExactPath && path.value.value == Some("")
  }

  predicate FaithfulForm(m: HTTPRouteMatch) {
    m.httpMethod.None? && HeadersAgree(m.headers) && ParamsAgree(m.queryParams)
  }

  /** The matcher selects the same requests as the match, whatever regular expressions mean. */
  ghost predicate Faithful(m: HTTPRouteMatch)
    requires Translatable(m)
  {
    forall re: Regexes, req: Request :: req.path != "" ==> (Accepts(Translated(m), re, req) <==> Matches(m, re, req))
  }

  /** A match that sets no method and whose repeated names agree is translated exactly. */
  lemma MatchPreserved(m: HTTPRouteMatch, re: Regexes, req: Request)
    requires Translatable(m) && FaithfulForm(m) && req.path != ""
    ensures Accepts(Translated(m), re, req) <==> Matches(m, re, req)
    ensures Takes(m, re, req) <==> Matches(m, re, req)
  {
    TakenExactly(m, re, req);
    FirstHeadersAreEntries(m.headers);
    FirstParamsAreEntries(m.queryParams);
    var fh, fq := FirstHeaders(m.headers), FirstParams(m.queryParams);
    if Accepts(Translated(m), re, req) {
      forall n | n in fh ensures n in req.headers && HeaderHolds(fh[n], re, req.headers[n]) {
        assert fh[n] in m.headers;
      }
      forall n | n in fq ensures n in req.query && ParamHolds(fq[n], re, req.query[n]) {
        assert fq[n] in m.queryParams;
      }
    }
  }

  // ----- witnesses for the matches that are not translated faithfully -----

  /** A value for a header or parameter: the literal an Exact match asks for, else a filler. */
  function Choose(exact: bool, literal: string, filler: string): string { if exact then literal else filler }

  /** A request path for a match: its literal, its prefix, or a filler that is no header value. */
  function WitnessPath(path: Option<HTTPPathMatch>, filler: string): string {
    if path.None? || path.value.value.None? then "/"
    else
      var v := path.value.value.value;
      match PathTypeOf(path.value)
      case ExactPath => v
      case PathPrefix => if TrimSuffix(v, "/") == "" then "/" else TrimSuffix(v, "/")
      case _ => filler
  }

  /** A request that gives every first header and parameter what it asks for. */
  function Witness(m: HTTPRouteMatch, filler: string, special: map<string, string>): Request {
    var fh, fq := FirstHeaders(m.headers), FirstParams(m.queryParams);
    Request(
      "", WitnessPath(m.path, filler),
      match m.httpMethod { case None => "GET" case Some(v) => v },
      (map n | n in fh :: Choose(HeaderTypeOf(fh[n]) == ExactValue, fh[n].value, filler)) + special,
      map n | n in fq :: Choose(ExactParamType(fq[n]), fq[n].value, filler))
  }

  /** All regular expressions match everything, except one pattern on one text. */
  ghost function AllBut(pattern: string, text: string): Regexes {
    iset p: string, t: string | !(p == pattern && t == text) :: (p, t)
  }

  lemma WitnessPathMatches(m: HTTPRouteMatch, filler: string, re: Regexes)
    requires Translatable(m) && !DeadPath(m.path) && filler != ""
    requires forall p :: (p, filler) in re
    ensures WitnessPath(m.path, filler) != ""
    ensures PathMatches(m.path, re, WitnessPath(m.path, filler))
  {
    var w := WitnessPath(m.path, filler);
    if m.path.None? {
      SplitPrefix("", "/", '/');
      assert "" + ['/'] == "/";
    } else if PathTypeOf(m.path.value) == PathPrefix {
      var t := TrimSuffix(m.path.value.value.value, "/");
      SplitPrefix(t, w, '/');
      assert "" + ['/'] == "/";
    }
  }

  /** The witness satisfies the match once the regular expressions accept the texts it was given. */
  lemma WitnessMatches(m: HTTPRouteMatch, filler: string, special: map<string, string>, re: Regexes)
    requires Translatable(m) && !DeadPath(m.path) && filler != ""
    requires forall p :: (p, filler) in re
    requires forall n :: n in special ==>
               n in FirstHeaders(m.headers) && HeaderHolds(FirstHeaders(m.headers)[n], re, special[n])
    ensures Matches(m, re, Witness(m, filler, special)) && Witness(m, filler, special).path != ""
  {
    WitnessPathMatches(m, filler, re);
    FirstHeadersAreEntries(m.headers);
    var req, fh := Witness(m, filler, special), FirstHeaders(m.headers);
    forall n | n in fh ensures n in req.headers && HeaderHolds(fh[n], re, req.headers[n]) {
      assert TranslateHeader(fh[n]).Some?;
    }
  }

  /** A header entry that differs from the first of its name makes Envoy refuse a request the match selects. */
  lemma HeaderConflictUnfaithful(m: HTTPRouteMatch, h: HTTPHeaderMatch)
    requires Translatable(m) && !DeadPath(m.path) && h in m.headers
    requires ToLower(h.name) in FirstHeaders(m.headers)
    requires var f := FirstHeaders(m.headers)[ToLower(h.name)];
             HeaderTypeOf(h) != HeaderTypeOf(f) || h.value != f.value
    ensures !Faithful(m)
  {
    FirstHeadersAreEntries(m.headers);
    var n := ToLower(h.name);
    var f := FirstHeaders(m.headers)[n];
    assert TranslateHeader(h).Some? && TranslateHeader(f).Some?;
    var text := if HeaderTypeOf(f) == ExactValue then f.value else h.value + "x";
    var re := if HeaderTypeOf(h) == RegularExpressionValue then AllBut(h.value, text) else AllBut("", "");
    var filler := text + "xx";
    WitnessMatches(m, filler, map[n := text], re);
    var req := Witness(m, filler, map[n := text]);
    assert req.headers[n] == text && !HeaderHolds(h, re, text);
    HeadersAccepted(m, re, req);
    assert !Accepts(Translated(m), re, req);
  }

  /** A query parameter that the code takes literally where the match does not makes Envoy refuse such a request. */
  lemma ParamConflictUnfaithful(m: HTTPRouteMatch, q: HTTPQueryParamMatch)
    requires Translatable(m) && !DeadPath(m.path) && q in m.queryParams
    requires q.name in FirstParams(m.queryParams)
    requires var f := FirstParams(m.queryParams)[q.name]; !ExactParamType(f) || q.value != f.value
    ensures !Faithful(m)
  {
    var filler := q.value + "xx";
    var re := AllBut("", "");
    WitnessMatches(m, filler, map[], re);
    var req := Witness(m, filler, map[]);
    assert req.query[q.name] != q.value;
    QueryAccepted(m, re, req);
    assert !Accepts(Translated(m), re, req);
  }

  /** The method of a match is dropped, so Envoy also takes requests with another method. */
  lemma MethodUnfaithful(m: HTTPRouteMatch)
    requires Translatable(m) && !DeadPath(m.path) && m.httpMethod.Some?
    requires HeadersAgree(m.headers) && ParamsAgree(m.queryParams)
    ensures !Faithful(m)
  {
    var re := AllBut("", "");
    var anyMethod := m.(httpMethod := None);
    WitnessMatches(anyMethod, "xx", map[], re);
    var req := Witness(anyMethod, "xx", map[]).(httpMethod := m.httpMethod.value + "x");
    assert Matches(anyMethod, re, req);
    assert Translated(anyMethod) == Translated(m);
    MatchPreserved(anyMethod, re, req);
    assert !Matches(m, re, req);
  }

  /** Exactly which matches are translated faithfully: those that set no method, whose repeated header names
      agree, and whose query parameters are Exact and do not disagree (or that select nothing at all). */
  lemma FaithfulExactly(m: HTTPRouteMatch)
    requires Translatable(m)
    ensures Faithful(m) <==> FaithfulForm(m) || DeadPath(m.path)
  {
    FirstHeadersAreEntries(m.headers);
    FirstParamsAreEntries(m.queryParams);
    if FaithfulForm(m) {
      forall re: Regexes, req: Request | req.path != ""
        ensures Accepts(Translated(m), re, req) <==> Matches(m, re, req)
      {
        MatchPreserved(m, re, req);
      }
    } else if !DeadPath(m.path) {
      if !HeadersAgree(m.headers) {
        var h :| h in m.headers &&
          var f := FirstHeaders(m.headers)[ToLower(h.name)];
          HeaderTypeOf(h) != HeaderTypeOf(f) || h.value != f.value;
        HeaderConflictUnfaithful(m, h);
      } else if !ParamsAgree(m.queryParams) {
        var q :| q in m.queryParams &&
          var f := FirstParams(m.queryParams)[q.name]; !ExactParamType(f) || q.value != f.value;
        ParamConflictUnfaithful(m, q);
      } else {
        MethodUnfaithful(m);
      }
    }
  }

  /** For every other match the error is on one side: with no method set, Envoy never takes more. */
  lemma NeverWiderWithoutMethod(m: HTTPRouteMatch, re: Regexes, req: Request)
    requires Translatable(m) && m.httpMethod.None? && req.path != ""
    requires forall q :: q in m.queryParams ==> ExactParamType(q)
    requires Accepts(Translated(m), re, req)
    ensures Matches(m, re, req)
  {
    PathPreserved(m.path, re, req.path);
    HeadersAccepted(m, re, req);
    QueryAccepted(m, re, req);
    FirstHeadersAreEntries(m.headers);
    FirstParamsAreEntries(m.queryParams);
    var fh, fq := FirstHeaders(m.headers), FirstParams(m.queryParams);
    forall n | n in fh ensures n in req.headers && HeaderHolds(fh[n], re, req.headers[n]) {
      assert fh[n] in m.headers;
    }
  }
}
