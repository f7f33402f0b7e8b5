/**
 * The parts of a WHATWG `URL` object the proxy reads. Parsing itself is not modelled:
 * `new URL(s)` is a parameter of type `Parser`, `None` where the constructor throws.
 */
module Urls {
  import opened Wrappers
  import opened Strings

  datatype Url = Url(protocol: string, hostname: string, port: string,
                     pathname: string, search: string, href: string)
  {
    /** `url.host`: the hostname, followed by `:port` when the URL names a port. */
    function Host(): (h: string)
      ensures StartsWith(h, hostname)
      ensures port == "" ==> h == hostname
    {
      if port == "" then hostname else hostname + ":" + port
    }

    /** `url.origin` for an http(s) URL. */
    function Origin(): string {
      protocol + "//" + Host()
    }
  }

  /** `new URL(s)`: `Some` of the parsed URL, `None` where the constructor throws. */
  type Parser = string -> Option<Url>

  /** What a WHATWG parser does with an explicit http(s) scheme: the protocol is that
    * scheme. Properties that depend on it take it as a precondition. */
  ghost predicate KeepsHttpScheme(parse: Parser) {
    forall s :: (StartsWith(s, "http://") && parse(s).Some? ==> parse(s).value.protocol == "http:")
             && (StartsWith(s, "https://") && parse(s).Some? ==> parse(s).value.protocol == "https:")
  }
}
