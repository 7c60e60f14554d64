/** The protocol enumerations the load-balancer helpers work on.

    Both enumerations are string-valued in the library, and an application
    protocol is the same string as the protocol of the same name, so the
    model has one datatype of protocol values and carves the application
    protocols out of it as a subset type. */
module Enums {

  /** Every protocol value a listener or target group can carry. */
  datatype Protocol = HTTP | HTTPS | TCP | TLS | UDP | TCP_UDP

  /** The application-layer protocols: HTTP and HTTPS only. */
  type ApplicationProtocol = p: Protocol | p == HTTP || p == HTTPS witness HTTP

  /** Whether a protocol value is one of the application-layer protocols. */
  predicate IsApplicationProtocol(p: Protocol) {
    p == HTTP || p == HTTPS
  }
}
