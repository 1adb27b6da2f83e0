/** The two-party session handshake, run with every message delivered unmodified. */
module Handshake {
  import opened Bytes
  import opened Primitives
  import opened SessionSteps
  import SecureChannel

  /** Where both parties stand after the four messages, and what each of them answered. */
  datatype Run = Run(
    client: Session,
    server: Session,
    responseMac: Reply<Octets>,
    authenticateMac: Reply<Octets>,
    verdict: Reply<bool>)

  function OrEmpty(r: Reply<Octets>): (o: Octets) {
    if r.Ok? then r.value else []
  }

  /** SessionRequest, SessionResponse, SessionAuthenticate and, if the server agrees, SessionStatus 0. */
  function Perform(s: Suite, client: Config, server: Config, clientKey: Point, serverKey: Point, sessionId: u16)
    : (r: Run)
  {
    var c0 := Initialize(New(s, client), clientKey);
    var s0 := Initialize(New(s, server), serverKey);
    var (s1, responseMac) := ProcessSessionRequest(s, s0, s.publicOf(clientKey), sessionId);
    var (c1, authenticateMac) :=
      ProcessSessionResponse(s, c0, sessionId, s.publicOf(serverKey), OrEmpty(responseMac));
    var (s2, verdict) :=
      VerifyAuthenticateMac(s, s1, s.publicOf(clientKey), client.userId, OrEmpty(authenticateMac));
    var c2 := if verdict == Ok(true) then CompleteAuthentication(c1, 0).0 else CompleteAuthentication(c1, 1).0;
    Run(c2, s2, responseMac, authenticateMac, verdict)
  }

  /** A party that is ready to exchange frames under the given key and session. */
  predicate Ready(ses: Session, sessionId: u16, key: Block) {
    && ses.state == Authenticated && ses.keyInitialized
    && ses.sessionId == sessionId && ses.key == key
    && ses.sendSeq == 0 && ses.recvSeq == 0
  }

  /** Both parties see the same XOR of the two public keys, hence authenticate the same data. */
  lemma SameData(a: Point, b: Point, sessionId: u16, userId: byte)
    ensures ResponseData(sessionId, a, b) == ResponseData(sessionId, b, a)
    ensures AuthenticateData(userId, a, b) == AuthenticateData(userId, b, a)
  {
    XorOctetsLaws(a, b);
  }

  /**
    * Parties that share the user and its password, and the device code if the client checks one, complete the
    * handshake: both MACs are accepted, and both end authenticated with one session id and one key.
    */
  lemma SharedSecretsAgree(
    s: Suite, client: Config, server: Config, clientKey: Point, serverKey: Point, sessionId: u16)
    requires DiffieHellman(s)
    requires client.userId == server.userId && client.userPassword == server.userPassword
    requires client.deviceAuthPassword.Some? ==> client.deviceAuthPassword == server.deviceAuthPassword
    ensures var r := Perform(s, client, server, clientKey, serverKey, sessionId);
            && r.responseMac.Ok? && r.authenticateMac.Ok? && r.verdict == Ok(true)
            && Ready(r.client, sessionId, r.client.key) && Ready(r.server, sessionId, r.client.key)
            && KeyFrom(s, r.client.key, clientKey, s.publicOf(serverKey))
            && KeyFrom(s, r.server.key, serverKey, s.publicOf(clientKey))
  {
    hide HandshakeMac, Verifies, ResponseData, AuthenticateData;
    var own, peer := s.publicOf(clientKey), s.publicOf(serverKey);
    SameData(own, peer, sessionId, client.userId);
    if client.deviceAuthPassword.Some? {
      var device := s.deviceKdf(client.deviceAuthPassword.value);
      var data := ResponseData(sessionId, own, peer);
      VerifiesExactlyTheMac(s, device, data, HandshakeMac(s, device, data));
    }
    var password := s.userKdf(client.userPassword);
    var data := AuthenticateData(client.userId, own, peer);
    VerifiesExactlyTheMac(s, password, data, HandshakeMac(s, password, data));
    assert s.exchange(clientKey, s.publicOf(serverKey)) == s.exchange(serverKey, s.publicOf(clientKey));
  }

  /** The MAC a server with this device code answers with; without a code it sends zeros. */
  function DeviceMac(s: Suite, code: Option<string>, data: Octets): (r: Octets) {
    if code.None? then Zeros(16) else HandshakeMac(s, s.deviceKdf(code.value), data)
  }

  function UserMac(s: Suite, password: string, data: Octets): (r: Octets) {
    HandshakeMac(s, s.userKdf(password), data)
  }

  /**
    * Whatever the secrets: the client accepts the response exactly when it checks no device code or both codes give
    * one MAC, and then both parties end authenticated exactly when the users are the same and both passwords give
    * one MAC.
    */
  lemma HandshakeOutcome(
    s: Suite, client: Config, server: Config, clientKey: Point, serverKey: Point, sessionId: u16)
    ensures var r := Perform(s, client, server, clientKey, serverKey, sessionId);
            var own, peer := s.publicOf(clientKey), s.publicOf(serverKey);
            var response, login := ResponseData(sessionId, own, peer), AuthenticateData(client.userId, own, peer);
            && (r.authenticateMac.Ok? <==>
                client.deviceAuthPassword.None?
                || DeviceMac(s, server.deviceAuthPassword, response) == DeviceMac(s, client.deviceAuthPassword, response))
            && (r.verdict == Ok(true) <==>
                && r.authenticateMac.Ok? && client.userId == server.userId
                && UserMac(s, client.userPassword, login) == UserMac(s, server.userPassword, login))
            && (r.verdict == Ok(true) <==> r.server.state == Authenticated)
            && (r.verdict == Ok(true) <==> r.client.state == Authenticated)
  {
    hide HandshakeMac, Verifies, ResponseData, AuthenticateData;
    var r := Perform(s, client, server, clientKey, serverKey, sessionId);
    var own, peer := s.publicOf(clientKey), s.publicOf(serverKey);
    SameData(own, peer, sessionId, client.userId);
    if client.deviceAuthPassword.Some? {
      VerifiesExactlyTheMac(s, s.deviceKdf(client.deviceAuthPassword.value),
                            ResponseData(sessionId, own, peer), r.responseMac.value);
    }
    VerifiesExactlyTheMac(s, s.userKdf(server.userPassword),
                          AuthenticateData(client.userId, peer, own), OrEmpty(r.authenticateMac));
    MacNotEmpty(s, s.userKdf(server.userPassword), AuthenticateData(client.userId, peer, own));
  }

  lemma MacNotEmpty(s: Suite, secret: Block, data: Octets)
    ensures |HandshakeMac(s, secret, data)| == 16
  {
  }

  /** Handshake, then traffic in both directions with losses: everything that arrives arrives intact. */
  lemma SecureConversation(
    s: Suite, client: Config, server: Config, clientKey: Point, serverKey: Point, sessionId: u16,
    requests: seq<Octets>, requestPicks: seq<nat>, answers: seq<Octets>, answerPicks: seq<nat>)
    requires DiffieHellman(s)
    requires client.userId == server.userId && client.userPassword == server.userPassword
    requires client.deviceAuthPassword.Some? ==> client.deviceAuthPassword == server.deviceAuthPassword
    requires |requests| <= WIRE_LIMIT && |answers| <= WIRE_LIMIT
    requires SecureChannel.Selection(requestPicks, |requests|) && SecureChannel.Selection(answerPicks, |answers|)
    ensures var r := Perform(s, client, server, clientKey, serverKey, sessionId);
            && r.client.keyInitialized && r.server.keyInitialized
            && SecureChannel.ArrivesIntact(s, r.client, r.server, requests, requestPicks)
            && SecureChannel.ArrivesIntact(s, r.server, r.client, answers, answerPicks)
  {
    SharedSecretsAgree(s, client, server, clientKey, serverKey, sessionId);
    var r := Perform(s, client, server, clientKey, serverKey, sessionId);
    hide Perform, SecureChannel.ArrivesIntact;
    SecureChannel.InOrderDelivery(s, r.client, r.server, requests, requestPicks);
    SecureChannel.InOrderDelivery(s, r.server, r.client, answers, answerPicks);
  }
}
