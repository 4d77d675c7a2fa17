/** The HTTP values the relay handles: header sets that it edits with
    `set` and `delete`, an inbound request and the upstream's response. */
module Http {

  /** Header names are taken to be lower case already, as the Fetch API's
      `Headers` stores them. */
  type HeaderMap = map<string, string>

  /** A `Headers` object: a mutable map from names to values. */
  class HeaderSet {

    var entries: HeaderMap

    /** `new Headers(init)`: a copy of `init`. */
    constructor (init: HeaderMap)
      ensures entries == init
    {
      entries := init;
    }

    /** `headers.set(name, value)`: adds the header or replaces its value. */
    method Set(name: string, value: string)
      modifies this
      ensures entries == old(entries)[name := value]
    {
      entries := entries[name := value];
    }

    /** `headers.delete(name)`: removes the header if it is there. */
    method Delete(name: string)
      modifies this
      ensures entries == old(entries) - {name}
    {
      entries := entries - {name};
    }
  }

  datatype Request = Request(verb: string, url: string, headers: HeaderMap, body: seq<bv8>)

  datatype UpstreamResponse = UpstreamResponse(
    status: nat,
    statusText: string,
    headers: HeaderMap,
    body: seq<bv8>)
}
