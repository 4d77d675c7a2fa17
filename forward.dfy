/** How the relay forwards the inbound request upstream
    (`fetchCloudflareDns`): the same method and body, the URL with the
    relay's host replaced once, and the headers rewritten. */
module Forward {

  import opened Text
  import opened Http
  import opened Settings

  /** The hop-by-hop metadata the upstream must not see. */
  const ForwardingHeaders: set<string> :=
    {"x-forwarded-host", "x-forwarded-proto", "x-forwarded-port", "x-forwarded-for"}

  /** `out` is `inbound` with `host` set to `host`, the forwarding headers
      gone and every other header as it was. */
  predicate ForwardedFrom(out: HeaderMap, inbound: HeaderMap, host: string)
  {
    && "host" in out && out["host"] == host
    && (forall k :: k in ForwardingHeaders ==> k !in out)
    && (forall k :: k in inbound && k != "host" && k !in ForwardingHeaders ==> k in out && out[k] == inbound[k])
    && (forall k :: k in out ==> k == "host" || k in inbound)
  }

  /** The header rewrite, one `set` and four `delete`s on a copy. */
  method ForwardHeaders(inbound: HeaderMap, host: string) returns (out: HeaderMap)
    ensures ForwardedFrom(out, inbound, host)
  {
    var headers := new HeaderSet(inbound);
    headers.Set("host", host);
    headers.Delete("x-forwarded-host");
    headers.Delete("x-forwarded-proto");
    headers.Delete("x-forwarded-port");
    headers.Delete("x-forwarded-for");
    out := headers.entries;
  }

  /** ForwardedFrom leaves no freedom: it determines the header map. */
  lemma ForwardedFromIsUnique(out1: HeaderMap, out2: HeaderMap, inbound: HeaderMap, host: string)
    requires ForwardedFrom(out1, inbound, host) && ForwardedFrom(out2, inbound, host)
    ensures out1 == out2
  {
    assert out1.Keys == out2.Keys;
  }

  /** The request sent upstream. */
  method ForwardRequest(request: Request, cfg: Config) returns (out: Request)
    ensures out.verb == request.verb && out.body == request.body
    ensures out.url == ReplaceFirst(request.url, cfg.relayHost, cfg.upstreamHost)
    ensures ForwardedFrom(out.headers, request.headers, cfg.upstreamHost)
  {
    var headers := ForwardHeaders(request.headers, cfg.upstreamHost);
    out := Request(request.verb, ReplaceFirst(request.url, cfg.relayHost, cfg.upstreamHost), headers, request.body);
  }

  /** For a URL `https://<relay host><path>` exactly the host is replaced;
      any occurrence of the relay's host inside `path` stays. */
  lemma ForwardUrlReplacesHostOnly(path: string)
    ensures ReplaceFirst("https://" + Deployed.relayHost + path, Deployed.relayHost, Deployed.upstreamHost)
            == "https://" + Deployed.upstreamHost + path
  {
    assert Deployed.relayHost[0] !in "https://";
    ReplaceFirstAfterPrefix("https://", Deployed.relayHost, path, Deployed.upstreamHost);
  }
}
