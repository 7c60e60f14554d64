# Elastic Load Balancing v2 shared helpers, in Dafny

This project models the configuration-time helpers that the Elastic Load
Balancing v2 constructs of the AWS CDK share
(`packages/@aws-cdk/aws-elasticloadbalancingv2/lib/shared/util.ts`):

- **Protocol/port defaulting.** `defaultPortForProtocol` maps HTTP to 80 and
  HTTPS to 443. `defaultProtocolForPort` maps 80, 8000, 8008 and 8080 to HTTP
  and 443 and 8443 to HTTPS. `determineProtocolAndPort` fills in whichever of
  the protocol or the port is missing, and returns both undefined when both
  are undefined.
- **Network-protocol validation.** `validateNetworkProtocol` accepts TCP, TLS,
  UDP and TCP_UDP and rejects everything else.
- **Attribute and tag rendering.** `renderAttributes` turns a dictionary of
  optional values into `{ key, value }` records and drops undefined values.
  `mapTagMapToCxschema` does the same for a dictionary of strings, with no
  filtering.
- **`ifUndefined`**, a `??` default.

Files:

- `wrappers.dfy`: module `Wrappers`. `Option` stands for `T | undefined`.
  `Result` and `Outcome` stand for a call that may throw.
- `enums.dfy`: module `Enums`. It declares the protocol values locally,
  because `./enums` is not part of this model. `Protocol` has the values
  HTTP, HTTPS, TCP, TLS, UDP and TCP_UDP. `ApplicationProtocol` is the subset
  type {HTTP, HTTPS} of it: the library's two enumerations are string-valued,
  and an application protocol is the same string as the protocol it names.
- `util.dfy`: module `LoadBalancerUtil`, the helpers themselves.

Modelling decisions:

- Thrown errors become `Failure`/`Fail` values of the `Error` datatype. Each
  error carries the offending value. The network-protocol error also carries
  the list of accepted protocols that the message names.
- A dictionary is the sequence of its entries in `Object.entries` order.
- The `{ key, value }` records of both renderers are one datatype, `Tag`.
- `renderAttributes` builds its result with a loop and `push`, so it is a
  method with a loop. It is proved equal to the specification function
  `DefinedEntries`, and the lemmas about rendering are proved on that
  function.
- `determineProtocolAndPort` reassigns its parameters one after the other,
  so it is a method too. Its contract states the whole behaviour directly.
- The other helpers are expressions (`switch`, `??`, `indexOf`, `.map`), so
  they are functions.
- `defaultPortForProtocol` is declared on `ApplicationProtocol`, but its
  `default` branch throws for any other value. At run time a TypeScript
  enum is only a string, so other values can reach it. The model therefore
  takes any `Protocol`, which makes the error reachable (for example for
  TCP). `determineProtocolAndPort` only passes application protocols, and
  its contract shows that this call never fails there.
- A port is an unbounded integer. The `switch` compares with `===`, so only
  the listed integers match.

## Model

| member | source | states |
|---|---|---|
| `LoadBalancerUtil.RenderAttributes` | packages/@aws-cdk/aws-elasticloadbalancingv2/lib/shared/util.ts:10-18 | the loop returns exactly `DefinedEntries(attributes)`: the defined entries in input order, each as `{ key, value }` |
| `LoadBalancerUtil.DefinedEntriesAppend` | packages/@aws-cdk/aws-elasticloadbalancingv2/lib/shared/util.ts:12-16 | rendering a concatenation is the concatenation of the renderings, so the input order is kept |
| `LoadBalancerUtil.DefinedEntriesMembership` | packages/@aws-cdk/aws-elasticloadbalancingv2/lib/shared/util.ts:12-15 | a record `{ key, value }` is in the output if and only if `(key, defined value)` is an input entry; undefined entries never appear |
| `LoadBalancerUtil.DefinedEntriesLength` | packages/@aws-cdk/aws-elasticloadbalancingv2/lib/shared/util.ts:10-18 | the output is never longer than the input, and has the same length exactly when every value is defined (empty input gives empty output) |
| `LoadBalancerUtil.DefinedEntriesDistinctKeys` | packages/@aws-cdk/aws-elasticloadbalancingv2/lib/shared/util.ts:10-18 | if the dictionary has no repeated key, neither has the rendered list |
| `LoadBalancerUtil.MapTagMapToCxschema` | packages/@aws-cdk/aws-elasticloadbalancingv2/lib/shared/util.ts:90-93 | one record per entry, the same length, and position by position the same key and value |
| `LoadBalancerUtil.TagEntriesOfMapTagMap` | packages/@aws-cdk/aws-elasticloadbalancingv2/lib/shared/util.ts:90-93 | reading the entries back from the mapped tags gives the original dictionary entries |
| `LoadBalancerUtil.MapTagMapOfTagEntries` | packages/@aws-cdk/aws-elasticloadbalancingv2/lib/shared/util.ts:90-93 | every list of tags is the mapping of its own entries, so the mapping is a bijection |
| `LoadBalancerUtil.MapTagMapIsRenderingOfDefined` | packages/@aws-cdk/aws-elasticloadbalancingv2/lib/shared/util.ts:90-93 | mapping tags gives the same records as rendering the same entries with every value defined |
| `LoadBalancerUtil.DefaultPortForProtocol` | packages/@aws-cdk/aws-elasticloadbalancingv2/lib/shared/util.ts:23-29 | HTTP gives 80 and HTTPS gives 443; it succeeds exactly for the application protocols and otherwise fails with an unrecognized-protocol error naming the value |
| `LoadBalancerUtil.DefaultProtocolForPort` | packages/@aws-cdk/aws-elasticloadbalancingv2/lib/shared/util.ts:35-50 | HTTP exactly for {80, 8000, 8008, 8080}; HTTPS exactly for {443, 8443}; an unknown-port error naming the port for every other port |
| `LoadBalancerUtil.DefaultPortRoundTrip` | packages/@aws-cdk/aws-elasticloadbalancingv2/lib/shared/util.ts:23-50 | for each application protocol p, the default port of p exists and its default protocol is p |
| `LoadBalancerUtil.DefaultProtocolRoundTrip` | packages/@aws-cdk/aws-elasticloadbalancingv2/lib/shared/util.ts:23-50 | for each port in the table, the default port of its default protocol exists, and equals the port exactly for 80 and 443 |
| `LoadBalancerUtil.DetermineProtocolAndPort` | packages/@aws-cdk/aws-elasticloadbalancingv2/lib/shared/util.ts:56-65 | both undefined gives both undefined, never an error; otherwise both results are defined, and a supplied component comes back unchanged with no consistency check; a missing port is the protocol's default port and a missing protocol is the port's default protocol; it fails, with the unknown-port error, exactly when only the port is given and the port is not in the table |
| `LoadBalancerUtil.IfUndefined` | packages/@aws-cdk/aws-elasticloadbalancingv2/lib/shared/util.ts:70-72 | a defined value is returned as it is; an undefined one is replaced by the default |
| `LoadBalancerUtil.IndexOf` | packages/@aws-cdk/aws-elasticloadbalancingv2/lib/shared/util.ts:81 | -1 exactly when the element is absent; otherwise the position of its first occurrence |
| `LoadBalancerUtil.ValidateNetworkProtocol` | packages/@aws-cdk/aws-elasticloadbalancingv2/lib/shared/util.ts:78-84 | passes if and only if the protocol is one of TCP, TLS, UDP, TCP_UDP; otherwise fails with an error listing those four and the protocol found |
| `LoadBalancerUtil.ApplicationProtocolsAreNotNetworkProtocols` | packages/@aws-cdk/aws-elasticloadbalancingv2/lib/shared/util.ts:78-84 | HTTP and HTTPS are both rejected by the network-protocol validation |

`LoadBalancerUtil.Examples` checks the documented concrete cases against the
contracts above. For example, `determineProtocolAndPort(undefined, 8080)` is
`(HTTP, 8080)`, `(HTTP, 443)` passes through, and port 9999 alone fails.

## Left out

- `parseLoadBalancerFullName` (util.ts:95-101) is not part of this model. All
  of its parsing is done by `Arn.split` of `@aws-cdk/core`, which is not part
  of this model either, and that code also handles unresolved CDK tokens.
- Error message text is not modelled. Errors are kinds carrying the offending
  value (and, for network protocols, the accepted list).
- The `cxschema.Tag` type and the `./enums` definitions are external. They
  are declared locally: `Tag` is a key/value record. `Protocol` has only the
  six values named above, so any further values that `./enums` may define
  are not modelled. The validation rejects any such value just as it rejects
  HTTP.
- JavaScript object semantics beyond ordered entries are not modelled. This
  covers prototype keys and the reordering of integer-like keys by
  `Object.entries`. A dictionary is taken as an ordered sequence of its
  entries. Duplicate keys are allowed in the model, which is more general
  than a JavaScript object.
- Ports as JavaScript numbers are not modelled: fractional values, NaN and
  infinities are left out. Ports are integers.
- IfUndefined: `??` also replaces `null`, which has no counterpart here. Only
  `undefined` (`None`) is modelled as absent.
