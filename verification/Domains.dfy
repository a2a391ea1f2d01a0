/** Hostnames and virtual-host domains: which hosts they cover, and which of two is more specific. */
module Domains {
  import opened Text

  predicate Wildcard(h: string) { HasPrefix(h, "*.") }

  /** A request host falls under a domain; a wildcard stands for one or more labels. */
  predicate Covers(domain: string, host: string) {
    if domain == "*" then true
    else if Wildcard(domain) then HasSuffix(host, domain[1..]) && |host| > |domain| - 1
    else host == domain
  }

  /** A name is more specific than every wildcard, a longer wildcard than a shorter one, and "*" is the least. */
  predicate MoreSpecific(d: string, e: string) {
    if e == "*" then d != "*"
    else if Wildcard(e) then d != "*" && (!Wildcard(d) || |d| > |e|)
    else false
  }

  /** Among the domains that cover a host no two are equally specific. */
  lemma CoveringDomainsAreRanked(d: string, e: string, host: string)
    requires Covers(d, host) && Covers(e, host) && d != e
    ensures MoreSpecific(d, e) || MoreSpecific(e, d)
  {
    if Wildcard(d) && Wildcard(e) && |d| == |e| { EquallyLongAreEqual(d, e, host); }
  }

  lemma EquallyLongAreEqual(d: string, e: string, host: string)
    requires Wildcard(d) && Wildcard(e) && |d| == |e| && Covers(d, host) && Covers(e, host)
    ensures d == e
  {
    assert d == "*" + d[1..] && e == "*" + e[1..];
  }
}
