/** Which caching strategy a request gets, decided from its host name alone. */
module Routing {
  import opened Http
  import opened Strings
  import opened Config

  datatype Route = External | Local

  /** `domains.some(domain => host.includes(domain))`. */
  function SomeIncluded(host: string, domains: seq<string>): (r: bool)
    ensures r <==> exists k :: 0 <= k < |domains| && Includes(host, domains[k])
  {
    if domains == [] then false
    else Includes(host, domains[0]) || SomeIncluded(host, domains[1..])
  }

  /** The route of a request URL: external when its host contains a listed domain. */
  function Classify(url: Url): (r: Route)
    ensures r == External <==> exists d, i :: d in ExternalDomains && OccursAt(url.host, d, i)
  {
    if SomeIncluded(url.host, ExternalDomains) then External else Local
  }

  /** A sub-domain of a listed domain is external. */
  lemma SubdomainIsExternal(path: string)
    ensures Classify(Url("x.unpkg.com", path)) == External
  {
    assert OccursAt("x.unpkg.com", "unpkg.com", 2);
    assert "unpkg.com" in ExternalDomains;
  }

  /**
   * The test is a substring test, not a suffix or origin test: a host that
   * merely embeds a listed domain is routed cache-first as well.
   */
  lemma EmbeddedDomainIsExternal(path: string)
    ensures Classify(Url("unpkg.com.example.org", path)) == External
  {
    assert OccursAt("unpkg.com.example.org", "unpkg.com", 0);
    assert "unpkg.com" in ExternalDomains;
  }

  /** The page's own origin is local. */
  lemma OwnOriginIsLocal(path: string)
    ensures Classify(Url("localhost", path)) == Local
  {
    var host := "localhost";
    assert host[..9][0] == 'l' != "unpkg.com"[0];
    assert !Includes(host, "unpkg.com");
    assert forall k :: 0 <= k < |ExternalDomains| && k != 1 ==> |ExternalDomains[k]| > |host|;
  }
}
