/** The relay's fixed names, gathered in one value so that every
    operation takes them as a parameter. */
module Settings {

  /** `sentinel` is the alias name whose own A records replace a
      provider's addresses, `upstreamHost` the upstream resolver's host,
      `relayHost` the relay's own host as it appears in inbound URLs. */
  datatype Config = Config(sentinel: string, upstreamHost: string, relayHost: string)

  /** The names this relay is deployed with. */
  const Deployed := Config("cf.100172.xyz", "cloudflare-dns.com", "doh.100172.xyz")
}
