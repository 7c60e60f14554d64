/** Configuration-time helpers shared by the Elastic Load Balancing v2
    constructs: protocol/port defaulting, network-protocol validation,
    attribute and tag rendering, and optional defaults. */
module LoadBalancerUtil {
  import opened Wrappers
  import opened Enums

  /** The errors the helpers throw, each carrying the offending value. */
  datatype Error =
    | UnrecognizedProtocol(proto: Protocol)
    | UnknownPortDefault(port: int)
    | InvalidNetworkProtocol(allowed: seq<Protocol>, found: Protocol)

  /** A `{ key, value }` record, as rendered attributes and schema tags are. */
  datatype Tag = Tag(key: string, value: string)

  /** The entries of an attribute dictionary, in enumeration order; a value
      may be undefined. */
  type Attributes = seq<(string, Option<string>)>

  /** The entries of a tag dictionary, in enumeration order. */
  type TagMap = seq<(string, string)>

  // ---------------------------------------------------------------------
  // Attribute rendering
  // ---------------------------------------------------------------------

  /** The entries of `attributes` whose value is defined, in order, each as a
      `{ key, value }` record. This is what rendering promises. */
  function DefinedEntries(attributes: Attributes): (r: seq<Tag>)
  {
    if attributes == [] then []
    else
      var (key, value) := attributes[0];
      (if value.Some? then [Tag(key, value.value)] else []) + DefinedEntries(attributes[1..])
  }

  /** Renders an attribute dictionary to a list of `{ key, value }` pairs,
      dropping the entries whose value is undefined. */
  method RenderAttributes(attributes: Attributes) returns (ret: seq<Tag>)
    ensures ret == DefinedEntries(attributes)
  {
    ret := [];
    var i := 0;
    while i < |attributes|
      invariant 0 <= i <= |attributes|
      invariant ret == DefinedEntries(attributes[..i])
    {
      var (key, value) := attributes[i];
      DefinedEntriesAppend(attributes[..i], [attributes[i]]);
      assert attributes[..i + 1] == attributes[..i] + [attributes[i]];
      if value.Some? {
        ret := ret + [Tag(key, value.value)];
      }
      i := i + 1;
    }
    assert attributes[..i] == attributes;
  }

  /** Rendering distributes over concatenation: the rendered entries keep the
      relative order of the input entries. */
  lemma {:induction false} DefinedEntriesAppend(a: Attributes, b: Attributes)
    ensures DefinedEntries(a + b) == DefinedEntries(a) + DefinedEntries(b)
  {
    if a == [] {
      assert a + b == b;
    } else {
      assert (a + b)[1..] == a[1..] + b;
      DefinedEntriesAppend(a[1..], b);
    }
  }

  /** A record is rendered exactly when its key is entered with that value
      defined. */
  lemma {:induction false} DefinedEntriesMembership(attributes: Attributes, key: string, value: string)
    ensures Tag(key, value) in DefinedEntries(attributes) <==> (key, Some(value)) in attributes
  {
    if attributes != [] {
      var (k, v) := attributes[0];
      var head := if v.Some? then [Tag(k, v.value)] else [];
      DefinedEntriesMembership(attributes[1..], key, value);
      assert DefinedEntries(attributes) == head + DefinedEntries(attributes[1..]);
      assert attributes == [attributes[0]] + attributes[1..];
      assert Tag(key, value) in head <==> attributes[0] == (key, Some(value));
    }
  }

  /** Rendering never lengthens the input, and keeps its length exactly when
      every value is defined. */
  lemma {:induction false} DefinedEntriesLength(attributes: Attributes)
    ensures |DefinedEntries(attributes)| <= |attributes|
    ensures |DefinedEntries(attributes)| == |attributes| <==>
            forall i :: 0 <= i < |attributes| ==> attributes[i].1.Some?
  {
    if attributes != [] {
      DefinedEntriesLength(attributes[1..]);
      assert forall i :: 1 <= i < |attributes| ==> attributes[i] == attributes[1..][i - 1];
    }
  }

  /** The keys of a list of records, in order. */
  function TagKeys(tags: seq<Tag>): (keys: seq<string>)
    ensures |keys| == |tags|
    ensures forall i :: 0 <= i < |tags| ==> keys[i] == tags[i].key
  {
    seq(|tags|, i requires 0 <= i < |tags| => tags[i].key)
  }

  /** The keys of a dictionary's entries, in order. */
  function AttributeKeys(attributes: Attributes): (keys: seq<string>)
    ensures |keys| == |attributes|
    ensures forall i :: 0 <= i < |attributes| ==> keys[i] == attributes[i].0
  {
    seq(|attributes|, i requires 0 <= i < |attributes| => attributes[i].0)
  }

  /** No key occurs twice. */
  predicate DistinctKeys(keys: seq<string>) {
    forall i, j :: 0 <= i < j < |keys| ==> keys[i] != keys[j]
  }

  /** A dictionary has no repeated key, so neither has its rendering. */
  lemma {:induction false} DefinedEntriesDistinctKeys(attributes: Attributes)
    requires DistinctKeys(AttributeKeys(attributes))
    ensures DistinctKeys(TagKeys(DefinedEntries(attributes)))
  {
    if attributes != [] {
      var rest := attributes[1..];
      assert forall i :: 0 <= i < |rest| ==> rest[i] == attributes[i + 1];
      assert DistinctKeys(AttributeKeys(rest)) by {
        forall i, j | 0 <= i < j < |rest| ensures rest[i].0 != rest[j].0 {
          assert AttributeKeys(attributes)[i + 1] != AttributeKeys(attributes)[j + 1];
        }
      }
      DefinedEntriesDistinctKeys(rest);
      var (key, value) := attributes[0];
      if value.Some? {
        var tail := DefinedEntries(rest);
        forall t | t in tail ensures t.key != key {
          DefinedEntriesMembership(rest, t.key, t.value);
          var k :| 0 <= k < |rest| && rest[k] == (t.key, Some(t.value));
          assert AttributeKeys(attributes)[0] != AttributeKeys(attributes)[k + 1];
        }
        assert DefinedEntries(attributes) == [Tag(key, value.value)] + tail;
      }
    }
  }

  // ---------------------------------------------------------------------
  // Tag mapping
  // ---------------------------------------------------------------------

  /** Maps a tag dictionary to schema tags: one record per entry, in order,
      with nothing dropped. */
  function MapTagMapToCxschema(tagMap: TagMap): (tags: seq<Tag>)
    ensures |tags| == |tagMap|
    ensures forall i :: 0 <= i < |tagMap| ==> tags[i].key == tagMap[i].0 && tags[i].value == tagMap[i].1
  {
    if tagMap == [] then []
    else [Tag(tagMap[0].0, tagMap[0].1)] + MapTagMapToCxschema(tagMap[1..])
  }

  /** The dictionary entries a list of schema tags stands for. */
  function TagEntries(tags: seq<Tag>): (entries: TagMap)
    ensures |entries| == |tags|
  {
    if tags == [] then []
    else [(tags[0].key, tags[0].value)] + TagEntries(tags[1..])
  }

  /** Mapping to schema tags loses nothing: the entries come back. */
  lemma {:induction false} TagEntriesOfMapTagMap(tagMap: TagMap)
    ensures TagEntries(MapTagMapToCxschema(tagMap)) == tagMap
  {
    if tagMap != [] {
      TagEntriesOfMapTagMap(tagMap[1..]);
    }
  }

  /** Every list of schema tags is the mapping of its own entries. */
  lemma {:induction false} MapTagMapOfTagEntries(tags: seq<Tag>)
    ensures MapTagMapToCxschema(TagEntries(tags)) == tags
  {
    if tags != [] {
      MapTagMapOfTagEntries(tags[1..]);
    }
  }

  /** A tag dictionary seen as an attribute dictionary whose values are all
      defined. */
  function AsAttributes(tagMap: TagMap): (attributes: Attributes)
    ensures |attributes| == |tagMap|
    ensures forall i :: 0 <= i < |tagMap| ==> attributes[i] == (tagMap[i].0, Some(tagMap[i].1))
  {
    seq(|tagMap|, i requires 0 <= i < |tagMap| => (tagMap[i].0, Some(tagMap[i].1)))
  }

  /** Mapping tags is rendering without the filter: on a dictionary whose
      values are all defined, the two produce the same records. */
  lemma {:induction false} MapTagMapIsRenderingOfDefined(tagMap: TagMap)
    ensures MapTagMapToCxschema(tagMap) == DefinedEntries(AsAttributes(tagMap))
  {
    if tagMap != [] {
      assert AsAttributes(tagMap)[1..] == AsAttributes(tagMap[1..]);
      MapTagMapIsRenderingOfDefined(tagMap[1..]);
    }
  }

  // ---------------------------------------------------------------------
  // Protocol and port defaulting
  // ---------------------------------------------------------------------

  /** The ports whose default protocol is HTTP. */
  const HttpPorts: set<int> := {80, 8000, 8008, 8080}

  /** The ports whose default protocol is HTTPS. */
  const HttpsPorts: set<int> := {443, 8443}

  /** The default port of a protocol: 80 for HTTP, 443 for HTTPS; any other
      protocol value is an error. */
  function DefaultPortForProtocol(proto: Protocol): (r: Result<int, Error>)
    ensures proto == HTTP <==> r == Success(80)
    ensures proto == HTTPS <==> r == Success(443)
    ensures r.Success? <==> IsApplicationProtocol(proto)
    ensures r.Failure? ==> r.error == UnrecognizedProtocol(proto)
  {
    match proto
    case HTTP => Success(80)
    case HTTPS => Success(443)
    case _ => Failure(UnrecognizedProtocol(proto))
  }

  /** The default protocol of a port: HTTP for 80, 8000, 8008 and 8080,
      HTTPS for 443 and 8443; any other port is an error. */
  function DefaultProtocolForPort(port: int): (r: Result<ApplicationProtocol, Error>)
    ensures r == Success(HTTP) <==> port in HttpPorts
    ensures r == Success(HTTPS) <==> port in HttpsPorts
    ensures r.Failure? <==> port !in HttpPorts + HttpsPorts
    ensures r.Failure? ==> r.error == UnknownPortDefault(port)
  {
    if port == 80 || port == 8000 || port == 8008 || port == 8080 then Success(HTTP)
    else if port == 443 || port == 8443 then Success(HTTPS)
    else Failure(UnknownPortDefault(port))
  }

  /** The default port of an application protocol has that protocol as its
      default protocol. */
  lemma DefaultPortRoundTrip(p: ApplicationProtocol)
    ensures DefaultPortForProtocol(p).Success?
    ensures DefaultProtocolForPort(DefaultPortForProtocol(p).value) == Success(p)
  {
  }

  /** Going the other way, a port with a default protocol comes back as that
      protocol's standard port, which is the port itself exactly for 80 and
      443. */
  lemma DefaultProtocolRoundTrip(port: int)
    requires port in HttpPorts + HttpsPorts
    ensures DefaultProtocolForPort(port).Success?
    ensures DefaultPortForProtocol(DefaultProtocolForPort(port).value).Success?
    ensures DefaultPortForProtocol(DefaultProtocolForPort(port).value).value == port <==> port == 80 || port == 443
  {
  }

  /** Given a protocol and a port, guesses whichever is undefined. Both
      undefined is returned as it is; a supplied component is never changed or
      checked against the other. */
  method DetermineProtocolAndPort(protocol: Option<ApplicationProtocol>, port: Option<int>)
    returns (r: Result<(Option<ApplicationProtocol>, Option<int>), Error>)
    ensures protocol.None? && port.None? ==> r == Success((None, None))
    ensures r.Failure? <==> protocol.None? && port.Some? && port.value !in HttpPorts + HttpsPorts
    ensures r.Failure? ==> r.error == UnknownPortDefault(port.value)
    ensures r.Success? && (protocol.Some? || port.Some?) ==> r.value.0.Some? && r.value.1.Some?
    ensures r.Success? && protocol.Some? ==> r.value.0 == protocol
    ensures r.Success? && port.Some? ==> r.value.1 == port
    ensures r.Success? && protocol.None? && port.Some? ==>
              DefaultProtocolForPort(port.value) == Success(r.value.0.value)
    ensures r.Success? && port.None? && r.value.0.Some? ==>
              DefaultPortForProtocol(r.value.0.value) == Success(r.value.1.value)
  {
    if protocol.None? && port.None? {
      return Success((None, None));
    }
    var proto, p := protocol, port;
    if proto.None? {
      var guessed := DefaultProtocolForPort(p.value);
      if guessed.Failure? {
        return Failure(guessed.error);
      }
      proto := Some(guessed.value);
    }
    if p.None? {
      p := Some(DefaultPortForProtocol(proto.value).value);
    }
    r := Success((proto, p));
  }

  // ---------------------------------------------------------------------
  // Optional defaults
  // ---------------------------------------------------------------------

  /** The value if it is defined, the default otherwise. */
  function IfUndefined<T>(x: Option<T>, def: T): (r: T)
    ensures x.Some? ==> r == x.value
    ensures x.None? ==> r == def
  {
    match x
    case Some(v) => v
    case None => def
  }

  // ---------------------------------------------------------------------
  // Network-protocol validation
  // ---------------------------------------------------------------------

  /** The protocols a network listener or target group accepts, in the order
      the error message lists them. */
  const NetworkProtocols: seq<Protocol> := [TCP, TLS, UDP, TCP_UDP]

  /** The position of the first occurrence of `x` in `s`, or -1 when there is
      none. */
  function IndexOf(s: seq<Protocol>, x: Protocol): (r: int)
    ensures r == -1 <==> x !in s
    ensures r != -1 ==> 0 <= r < |s| && s[r] == x && x !in s[..r]
  {
    if s == [] then -1
    else if s[0] == x then 0
    else
      var k := IndexOf(s[1..], x);
      if k == -1 then -1 else k + 1
  }

  /** Passes exactly for TCP, TLS, UDP and TCP_UDP; rejects every other
      protocol, naming the accepted ones and the one found. */
  function ValidateNetworkProtocol(protocol: Protocol): (r: Outcome<Error>)
    ensures r.Pass? <==> protocol in {TCP, TLS, UDP, TCP_UDP}
    ensures r.Fail? ==> r.error == InvalidNetworkProtocol([TCP, TLS, UDP, TCP_UDP], protocol)
  {
    if IndexOf(NetworkProtocols, protocol) == -1 then
      Fail(InvalidNetworkProtocol(NetworkProtocols, protocol))
    else
      Pass
  }

  /** No application-layer protocol is a network protocol. */
  lemma ApplicationProtocolsAreNotNetworkProtocols(p: ApplicationProtocol)
    ensures ValidateNetworkProtocol(p).Fail?
  {
  }

  // ---------------------------------------------------------------------
  // Worked cases
  // ---------------------------------------------------------------------

  /** The documented behaviour on concrete inputs, derived from the
      contracts alone. */
  method Examples() {
    var r := DetermineProtocolAndPort(None, None);
    assert r == Success((None, None));
    r := DetermineProtocolAndPort(None, Some(8080));
    assert r == Success((Some(HTTP), Some(8080)));
    r := DetermineProtocolAndPort(Some(HTTPS), None);
    assert r == Success((Some(HTTPS), Some(443)));
    r := DetermineProtocolAndPort(Some(HTTP), Some(443));
    assert r == Success((Some(HTTP), Some(443)));
    r := DetermineProtocolAndPort(None, Some(9999));
    assert r == Failure(UnknownPortDefault(9999));

    assert ValidateNetworkProtocol(TCP) == Pass;
    assert ValidateNetworkProtocol(HTTP) == Fail(InvalidNetworkProtocol([TCP, TLS, UDP, TCP_UDP], HTTP));

    var rendered := RenderAttributes([("a", Some("1")), ("b", None), ("c", Some("3"))]);
    assert rendered == [Tag("a", "1"), Tag("c", "3")];
    assert MapTagMapToCxschema([("x", "1"), ("y", "2")]) == [Tag("x", "1"), Tag("y", "2")];
  }
}
