/**
  The TLS part of `mqtt_test_connect`: the preprocessor cascade that picks one of
  four ways to build the client's TLS configuration from the PEM constants that
  were compiled in, the server-name binding, the NULL check, and the connect
  request that follows it.

  The TLS engine and the MQTT engine are foreign code: whether a configuration
  could be built and what the connect call returns are inputs, and the calls
  made are recorded as actions in the order the function makes them.
 */
module TlsSetup {
  import opened Types

  /** The optional PEM constants `CRYPTO_CA`, `CRYPTO_KEY` and `CRYPTO_CERT`, as the bytes of their C literals. */
  datatype Credentials = Credentials(ca: Option<seq<byte>>, key: Option<seq<byte>>, cert: Option<seq<byte>>)

  /** A buffer argument of the TLS engine: its bytes and the length passed with it. */
  datatype Blob = Blob(text: seq<byte>, size: nat)

  /** C's `strlen`: the number of bytes before the first zero byte, or all of them. */
  function StrLen(text: seq<byte>): (n: nat)
    ensures n <= |text|
    ensures forall i :: 0 <= i < n ==> text[i] != 0
    ensures n < |text| ==> text[n] == 0
    decreases |text|
  {
    if text == [] || text[0] == 0 then 0 else 1 + StrLen(text[1..])
  }

  /**
    A PEM constant is passed as `1 + strlen(pem)` bytes: its bytes up to the
    first zero byte and that terminator. The whole text is passed exactly when it
    holds no zero byte.
   */
  function Pem(text: seq<byte>): (b: Blob)
    ensures b.text == text
    ensures 1 <= b.size <= |text| + 1
    ensures forall i :: 0 <= i < b.size - 1 ==> text[i] != 0
    ensures b.size == |text| + 1 <==> forall i :: 0 <= i < |text| ==> text[i] != 0
    ensures b.size - 1 < |text| ==> text[b.size - 1] == 0
  {
    Blob(text, 1 + StrLen(text))
  }

  /** The empty private-key password of the two-way branch: `""` with length 0. */
  const NoPassword: Blob := Blob([], 0)

  /** The configuration the client asks the TLS engine to build. */
  datatype ConfigRequest =
    | TwoWayAuth(ca: Blob, privKey: Blob, privKeyPass: Blob, cert: Blob)  // altcp_tls_create_config_client_2wayauth
    | CaOnly(anchor: Blob)                                                 // altcp_tls_create_config_client(ca)
    | CertAsAnchor(anchor: Blob)                                           // altcp_tls_create_config_client(cert)
    | NoCredentials                                                        // altcp_tls_create_config_client(NULL, 0)

  /** The certificate the server is validated against, if any. */
  function TrustAnchor(req: ConfigRequest): Option<Blob> {
    match req
    case TwoWayAuth(ca, _, _, _) => Some(ca)
    case CaOnly(anchor) => Some(anchor)
    case CertAsAnchor(anchor) => Some(anchor)
    case NoCredentials => None
  }

  /** The certificate the client presents to the server, if any. */
  function ClientCertificate(req: ConfigRequest): Option<Blob> {
    match req
    case TwoWayAuth(_, _, _, cert) => Some(cert)
    case _ => None
  }

  /**
    The preprocessor cascade: two-way authentication needs all three constants;
    otherwise a CA alone wins; otherwise a certificate is used as the trust
    anchor; otherwise no credentials at all.
   */
  function Select(c: Credentials): (r: ConfigRequest)
    ensures r.TwoWayAuth? <==> c.ca.Some? && c.key.Some? && c.cert.Some?
    ensures r.CaOnly? <==> c.ca.Some? && !(c.key.Some? && c.cert.Some?)
    ensures r.CertAsAnchor? <==> c.ca.None? && c.cert.Some?
    ensures r.NoCredentials? <==> c.ca.None? && c.cert.None?
    ensures r.TwoWayAuth? ==>
              r == TwoWayAuth(Pem(c.ca.value), Pem(c.key.value), NoPassword, Pem(c.cert.value))
    ensures r.CaOnly? ==> r.anchor == Pem(c.ca.value)
    ensures r.CertAsAnchor? ==> r.anchor == Pem(c.cert.value)
  {
    if c.ca.Some? && c.key.Some? && c.cert.Some? then
      TwoWayAuth(Pem(c.ca.value), Pem(c.key.value), NoPassword, Pem(c.cert.value))
    else if c.ca.Some? then
      CaOnly(Pem(c.ca.value))
    else if c.cert.Some? then
      CertAsAnchor(Pem(c.cert.value))
    else
      NoCredentials
  }

  /**
    The client presents a certificate exactly when CA, key and certificate are
    all compiled in; in every other case it presents nothing.
   */
  lemma ClientCertificateOnlyWithAllThree(c: Credentials)
    ensures ClientCertificate(Select(c)).Some? <==> c.ca.Some? && c.key.Some? && c.cert.Some?
    ensures ClientCertificate(Select(c)).Some? ==> ClientCertificate(Select(c)).value == Pem(c.cert.value)
  {
  }

  /**
    The server is validated against the CA whenever one is compiled in, against
    the client's own certificate when only that is, and against nothing otherwise.
   */
  lemma TrustAnchorChoice(c: Credentials)
    ensures c.ca.Some? ==> TrustAnchor(Select(c)) == Some(Pem(c.ca.value))
    ensures c.ca.None? && c.cert.Some? ==>
              TrustAnchor(Select(c)) == Some(Pem(c.cert.value)) && ClientCertificate(Select(c)).None?
    ensures c.ca.None? && c.cert.None? ==> TrustAnchor(Select(c)).None?
  {
  }

  /** The broker settings compiled into the client. */
  datatype Broker = Broker(host: string, port: uint16, user: string, pass: string)

  /** The MQTT client identifier. */
  const ClientId: string := "PicoW"

  /** `struct mqtt_connect_client_info_t` as the client fills it in. */
  datatype ClientInfo = ClientInfo(
    clientId: string,
    user: string,
    pass: string,
    keepAlive: nat,
    willTopic: Option<string>,
    willMsg: Option<string>,
    willRetain: nat,
    willQos: nat,
    tlsConfig: nat)

  /** The foreign calls `mqtt_test_connect` makes. */
  datatype Action =
    | CreateConfig(request: ConfigRequest)
    | SetServerName(host: string)
    | ClientConnect(addr: uint32, port: uint16, info: ClientInfo)

  /** The calls made and the value returned. */
  datatype ConnectOutcome = ConnectOutcome(actions: seq<Action>, ret: int)

  /** Whether the actions include a connect request. */
  predicate Connects(actions: seq<Action>) {
    exists k :: 0 <= k < |actions| && actions[k].ClientConnect?
  }

  /**
    `mqtt_test_connect` with TLS enabled. `config` is what the TLS engine
    returned (`None` for NULL), `addr` the resolved broker address, and
    `connectErr` what `mqtt_client_connect` returned. The server name is bound
    before the NULL check; a NULL configuration returns -1 and never connects.
   */
  function Connect(c: Credentials, b: Broker, addr: uint32, config: Option<nat>, connectErr: int): (r: ConnectOutcome)
    ensures |r.actions| >= 2
    ensures r.actions[0] == CreateConfig(Select(c))
    ensures r.actions[1] == SetServerName(b.host)
    ensures config.None? ==> r.ret == -1 && |r.actions| == 2 && !Connects(r.actions)
    ensures config.Some? ==> r.ret == connectErr
    ensures config.Some? ==>
              |r.actions| == 3 &&
              r.actions[2] == ClientConnect(addr, b.port,
                ClientInfo(ClientId, b.user, b.pass, 0, None, None, 0, 0, config.value))
  {
    var prefix := [CreateConfig(Select(c)), SetServerName(b.host)];
    match config
    case None => ConnectOutcome(prefix, -1)
    case Some(handle) =>
      var info := ClientInfo(ClientId, b.user, b.pass, 0, None, None, 0, 0, handle);
      ConnectOutcome(prefix + [ClientConnect(addr, b.port, info)], connectErr)
  }

  /**
    Whatever the credentials, the configuration is bound to the broker's host
    name, and the connect request is made exactly when a configuration was built.
   */
  lemma ConnectOnlyWithConfig(c: Credentials, b: Broker, addr: uint32, config: Option<nat>, connectErr: int)
    ensures var r := Connect(c, b, addr, config, connectErr);
      && SetServerName(b.host) in r.actions
      && (Connects(r.actions) <==> config.Some?)
      && (config.Some? ==> r.actions[2].info.tlsConfig == config.value)
  {
    var r := Connect(c, b, addr, config, connectErr);
    assert r.actions[1] == SetServerName(b.host);
    if config.Some? {
      assert r.actions[2].ClientConnect?;
    }
  }

  /** The example header's HiveMQ profile defines only `CRYPTO_CA`. */
  function HiveCredentials(caPem: seq<byte>): (c: Credentials)
    ensures Select(c) == CaOnly(Pem(caPem))
    ensures TrustAnchor(Select(c)) == Some(Pem(caPem)) && ClientCertificate(Select(c)).None?
  {
    Credentials(Some(caPem), None, None)
  }

  /**
    With only a CA compiled in and the broker at "broker.example", the client
    asks for a CA-only configuration bound to that host and presents no
    certificate of its own.
   */
  lemma CaOnlyScenario(caPem: seq<byte>, b: Broker, addr: uint32, handle: nat, connectErr: int)
    requires b.host == "broker.example"
    ensures var r := Connect(HiveCredentials(caPem), b, addr, Some(handle), connectErr);
      && r.actions[0] == CreateConfig(CaOnly(Pem(caPem)))
      && r.actions[1] == SetServerName("broker.example")
      && ClientCertificate(r.actions[0].request).None?
      && r.actions[2].ClientConnect?
      && r.ret == connectErr
  {
  }
}
