/** The name formats of clusters, routes and virtual hosts, and when two names coincide. */
module Names {
  import opened Text
  import opened GatewayApi

  /** "<namespace>-<backend>-<port>" */
  function ClusterName(namespace: string, backend: string, port: int): string {
    namespace + "-" + backend + "-" + Signed(port)
  }

  /** "<namespace>-<httproute>-rule<i>-match<j>" */
  function RouteName(namespace: string, name: string, ruleIndex: nat, matchIndex: nat): string {
    namespace + "-" + name + "-rule" + Decimal(ruleIndex) + "-match" + Decimal(matchIndex)
  }

  /** "<gateway>-vh-<port>-<domain>" */
  function VHostName(gateway: string, port: int, domain: string): string {
    gateway + "-vh-" + Signed(port) + "-" + domain
  }

  /** Two cluster names coincide exactly when the ports do and so do "namespace-backend". */
  lemma ClusterNamesCoincide(n: string, b: string, p: nat, n': string, b': string, p': nat)
    ensures ClusterName(n, b, p) == ClusterName(n', b', p') <==> p == p' && n + "-" + b == n' + "-" + b'
  {
    if ClusterName(n, b, p) == ClusterName(n', b', p') {
      CutAtLast(n + "-" + b, Decimal(p), n' + "-" + b', Decimal(p'), '-');
      DecimalInjective(p, p');
    }
  }

  /** Within one namespace a cluster name determines backend and port. */
  lemma ClusterNameInjective(n: string, b: string, p: nat, b': string, p': nat)
    requires ClusterName(n, b, p) == ClusterName(n, b', p')
    ensures b == b' && p == p'
  {
    ClusterNamesCoincide(n, b, p, n, b', p');
    assert b == (n + "-" + b)[|n| + 1..] && b' == (n + "-" + b')[|n| + 1..];
  }

  /** Across namespaces it does not, and with a negative port it does not even within one. */
  lemma ClusterNamesCanCollide()
    ensures ClusterName("a-b", "c", 80) == ClusterName("a", "b-c", 80)
    ensures ClusterName("n", "a", -5) == ClusterName("n", "a-", 5)
  {
    assert "a-b" + "-" + "c" == "a" + "-" + "b-c";
    assert "a" + "-" + ("-" + Decimal(5)) == "a-" + "-" + Decimal(5);
    calc {
      ClusterName("n", "a", -5);
      "n" + "-" + ("a" + "-" + ("-" + Decimal(5)));
      "n" + "-" + ("a-" + "-" + Decimal(5));
      ClusterName("n", "a-", 5);
    }
  }

  /** Printing a port as int32, as weighted clusters do, agrees with printing it as uint32 exactly below 2^31. */
  lemma PortPrintedAlike(n: string, b: string, p: uint32)
    ensures ClusterName(n, b, ToInt32(p)) == ClusterName(n, b, p) <==> p < TWO_TO_THE_31
  {
    var pre := n + "-" + b + "-";
    assert Digit(Decimal(p)[0]);
    assert ClusterName(n, b, p)[|pre|] == Decimal(p)[0];
    if p >= TWO_TO_THE_31 {
      assert ClusterName(n, b, ToInt32(p))[|pre|] == '-';
    }
  }

  /** Two route names coincide exactly when rule and match index do and so do the texts "namespace-httproute". */
  lemma RouteNamesCoincide(n: string, r: string, i: nat, j: nat, n': string, r': string, i': nat, j': nat)
    ensures RouteName(n, r, i, j) == RouteName(n', r', i', j') <==> n + "-" + r == n' + "-" + r' && i == i' && j == j'
  {
    if RouteName(n, r, i, j) == RouteName(n', r', i', j') {
      var s, s' := n + "-" + r + "-rule" + Decimal(i), n' + "-" + r' + "-rule" + Decimal(i');
      assert RouteName(n, r, i, j) == (s + "-matc") + ['h'] + Decimal(j);
      assert RouteName(n', r', i', j') == (s' + "-matc") + ['h'] + Decimal(j');
      CutAtLast(s + "-matc", Decimal(j), s' + "-matc", Decimal(j'), 'h');
      DecimalInjective(j, j');
      assert s == (s + "-matc")[..|s + "-matc"| - 5] && s' == (s' + "-matc")[..|s' + "-matc"| - 5];
      RuleNamesCoincide(n + "-" + r, i, n' + "-" + r', i');
    }
  }

  lemma RuleNamesCoincide(pre: string, i: nat, pre': string, i': nat)
    requires pre + "-rule" + Decimal(i) == pre' + "-rule" + Decimal(i')
    ensures pre == pre' && i == i'
  {
    assert pre + "-rule" + Decimal(i) == (pre + "-rul") + ['e'] + Decimal(i);
    assert pre' + "-rule" + Decimal(i') == (pre' + "-rul") + ['e'] + Decimal(i');
    CutAtLast(pre + "-rul", Decimal(i), pre' + "-rul", Decimal(i'), 'e');
    DecimalInjective(i, i');
    assert pre == (pre + "-rul")[..|pre + "-rul"| - 4] && pre' == (pre' + "-rul")[..|pre' + "-rul"| - 4];
  }

  /** The routes of one HTTPRoute are told apart by rule and match index. */
  lemma RouteNameInjective(n: string, r: string, i: nat, j: nat, i': nat, j': nat)
    requires RouteName(n, r, i, j) == RouteName(n, r, i', j')
    ensures i == i' && j == j'
  {
    RouteNamesCoincide(n, r, i, j, n, r, i', j');
  }

  /** On one gateway port, virtual hosts of different domains have different names. */
  lemma VHostNameInjective(gateway: string, port: int, d: string, d': string)
    requires VHostName(gateway, port, d) == VHostName(gateway, port, d')
    ensures d == d'
  {
    var pre := gateway + "-vh-" + Signed(port) + "-";
    assert d == (pre + d)[|pre|..] && d' == (pre + d')[|pre|..];
  }
}
