/**
  * KNX IP Secure sessions: what one message does to a session, as functions on values.
  *
  * `SecureSession` (in SecureSession.dfy) is the stateful object; it is proved to take exactly these steps.
  */
module SessionSteps {
  import opened Bytes
  import opened Primitives

  const COUNTER_0_HANDSHAKE: Block := Zeros(14) + [0xFF, 0x00]

  const U64_LIMIT: nat := 0x1_0000_0000_0000_0000

  /** Sequence numbers travel as six octets. */
  const WIRE_LIMIT: nat := 0x1_0000_0000_0000

  datatype State = Uninitialized | Handshaking | Authenticated | Closed | Failed

  datatype SessionError =
    | NotInitialized
    | AuthenticationFailed
    | KeyMissing
    | FrameTooShort
    | WrongSession
    | StaleSequence
    | MacMismatch

  type Reply<+T> = Result<T, SessionError>

  datatype Config = Config(userId: byte, userPassword: string, deviceAuthPassword: Option<string>)

  datatype Session = Session(
    sessionId: u16,
    key: Block,
    keyInitialized: bool,
    sendSeq: nat,
    recvSeq: nat,
    state: State,
    keyPair: Option<Point>,
    deviceAuth: Option<Block>,
    userPassword: Block,
    userId: byte)

  function New(s: Suite, c: Config): (r: Session) {
    Session(0, Zeros(16), false, 0, 0, Uninitialized, None,
            if c.deviceAuthPassword.Some? then Some(s.deviceKdf(c.deviceAuthPassword.value)) else None,
            s.userKdf(c.userPassword), c.userId)
  }

  /** The random private key is a parameter; the caller sends out `publicOf(privateKey)`. */
  function Initialize(ses: Session, privateKey: Point): (r: Session) {
    ses.(keyPair := Some(privateKey), state := Handshaking, sendSeq := 0, recvSeq := 0)
  }

  // ---- Handshake ----

  function ResponseData(sessionId: u16, own: Point, peer: Point): (r: Octets) {
    [0x06, 0x10, 0x09, 0x52, 0x00, 0x38] + U16Bytes(sessionId) + XorOctets(own, peer)
  }

  function AuthenticateData(userId: byte, own: Point, peer: Point): (r: Octets) {
    [0x06, 0x10, 0x09, 0x53, 0x00, 0x18] + [0x00, userId] + XorOctets(own, peer)
  }

  function PlainMac(s: Suite, secret: Block, data: Octets): (r: Octets)
    ensures |r| == 16
  {
    MacCbc(s, secret, data, [], Zeros(16)).value
  }

  /** The MAC as it travels: CBC-MAC of the data, masked with the handshake keystream. */
  function HandshakeMac(s: Suite, secret: Block, data: Octets): (r: Octets) {
    CtrXor(s, secret, COUNTER_0_HANDSHAKE, 0, PlainMac(s, secret, data))
  }

  /** The authenticated data of the response: frame header, session id, XOR of the public keys. */
  lemma ResponseDataOctets(sessionId: u16, own: Point, peer: Point)
    ensures var d := ResponseData(sessionId, own, peer);
            && |d| == 40 && d[..6] == [0x06, 0x10, 0x09, 0x52, 0x00, 0x38]
            && U16From(d[6], d[7]) == sessionId
            && forall i :: 0 <= i < 32 ==> d[8 + i] == XorByte(own[i], peer[i])
  {
    hide XorByte, XorOctets;
    U16RoundTrip(sessionId);
  }

  /** And of the authentication: frame header, a reserved octet, user id, XOR of the public keys. */
  lemma AuthenticateDataOctets(userId: byte, own: Point, peer: Point)
    ensures var d := AuthenticateData(userId, own, peer);
            && |d| == 40 && d[..6] == [0x06, 0x10, 0x09, 0x53, 0x00, 0x18]
            && d[6] == 0 && d[7] == userId
            && forall i :: 0 <= i < 32 ==> d[8 + i] == XorByte(own[i], peer[i])
  {
    hide XorByte, XorOctets;
  }

  /** The MAC that travels, octet by octet: no payload, an all-zero block 0, masked with one fixed block. */
  lemma HandshakeMacOctets(s: Suite, secret: Block, data: Octets)
    ensures var mac := HandshakeMac(s, secret, data);
            var plain := Chained(s, secret, data, [], Zeros(16), (33 + |data|) / 16);
            MaskedBy(s, secret, [0, 0, 0, 0, 0, 0, 0, 0, 0, 0, 0, 0, 0, 0, 0xFF, 0x00], 0, plain, mac)
  {
    hide MaskedBy, Chained, MacCbc;
    assert COUNTER_0_HANDSHAKE == [0, 0, 0, 0, 0, 0, 0, 0, 0, 0, 0, 0, 0, 0, 0xFF, 0x00];
    MacIsChained(s, secret, data, [], Zeros(16));
    hide CtrXor;
    CtrBlocks(s, secret, COUNTER_0_HANDSHAKE, PlainMac(s, secret, data), []);
  }

  /** A received MAC verifies when unmasking it yields the CBC-MAC computed locally. */
  predicate Verifies(s: Suite, secret: Block, data: Octets, mac: Octets) {
    PlainMac(s, secret, data) == CtrXor(s, secret, COUNTER_0_HANDSHAKE, 0, mac)
  }

  /** Exactly one octet string verifies: the MAC the holder of the same secret would send. */
  lemma VerifiesExactlyTheMac(s: Suite, secret: Block, data: Octets, mac: Octets)
    ensures Verifies(s, secret, data, mac) <==> mac == HandshakeMac(s, secret, data)
  {
    CtrXorTwice(s, secret, COUNTER_0_HANDSHAKE, 0, PlainMac(s, secret, data));
    CtrXorTwice(s, secret, COUNTER_0_HANDSHAKE, 0, mac);
  }

  function SessionKeyOf(s: Suite, own: Point, peer: Point): (r: Block) {
    s.sha256(s.exchange(own, peer))[..16]
  }

  /** Client: check the server's MAC (when a device code is configured), derive the key, answer with a MAC. */
  function ProcessSessionResponse(s: Suite, ses: Session, sessionId: u16, serverPublic: Point, serverMac: Octets)
    : (r: (Session, Reply<Octets>))
    ensures r.1.Err? ==> r.0 == ses
  {
    if ses.keyPair.None? then (ses, Err(NotInitialized))
    else
      var own := s.publicOf(ses.keyPair.value);
      if ses.deviceAuth.Some?
         && !Verifies(s, ses.deviceAuth.value, ResponseData(sessionId, own, serverPublic), serverMac) then
        (ses, Err(AuthenticationFailed))
      else
        (ses.(sessionId := sessionId, key := SessionKeyOf(s, ses.keyPair.value, serverPublic), keyInitialized := true),
         Ok(HandshakeMac(s, ses.userPassword, AuthenticateData(ses.userId, own, serverPublic))))
  }

  /** Server: derive the key and produce the device-authentication MAC (all zero when none is configured). */
  function ProcessSessionRequest(s: Suite, ses: Session, clientPublic: Point, sessionId: u16)
    : (r: (Session, Reply<Octets>))
  {
    if ses.keyPair.None? then (ses, Err(NotInitialized))
    else
      (ses.(sessionId := sessionId, key := SessionKeyOf(s, ses.keyPair.value, clientPublic), keyInitialized := true),
       Ok(if ses.deviceAuth.None? then Zeros(16)
          else HandshakeMac(s, ses.deviceAuth.value,
                            ResponseData(sessionId, s.publicOf(ses.keyPair.value), clientPublic))))
  }

  /** The octets of a session key: the first half of the hash of the shared secret. */
  predicate KeyFrom(s: Suite, key: Block, privateKey: Point, peer: Point) {
    forall i :: 0 <= i < 16 ==> key[i] == s.sha256(s.exchange(privateKey, peer))[i]
  }

  /**
    * Every response: it is accepted exactly when a handshake was begun and, if a device code is configured, the MAC is
    * the one of that code; then the key is the first half of the hash, and nothing but key and id changes.
    */
  lemma ResponseOutcome(s: Suite, ses: Session, sessionId: u16, serverPublic: Point, serverMac: Octets)
    ensures var (next, reply) := ProcessSessionResponse(s, ses, sessionId, serverPublic, serverMac);
            && (reply == Err(NotInitialized) <==> ses.keyPair.None?)
            && (reply.Ok? <==>
                ses.keyPair.Some?
                && (ses.deviceAuth.None?
                    || serverMac == HandshakeMac(s, ses.deviceAuth.value,
                                                 ResponseData(sessionId, s.publicOf(ses.keyPair.value), serverPublic))))
            && (reply.Ok? ==>
                && KeyFrom(s, next.key, ses.keyPair.value, serverPublic)
                && next == ses.(sessionId := sessionId, key := next.key, keyInitialized := true)
                && reply.value == HandshakeMac(s, ses.userPassword,
                                               AuthenticateData(ses.userId, s.publicOf(ses.keyPair.value), serverPublic)))
  {
    hide HandshakeMac, Verifies, ResponseData, AuthenticateData;
    if ses.keyPair.Some? && ses.deviceAuth.Some? {
      VerifiesExactlyTheMac(s, ses.deviceAuth.value,
                            ResponseData(sessionId, s.publicOf(ses.keyPair.value), serverPublic), serverMac);
    }
  }

  /** Every request: accepted exactly when a handshake was begun, with the same key for the same secret. */
  lemma RequestOutcome(s: Suite, ses: Session, clientPublic: Point, sessionId: u16)
    ensures var (next, reply) := ProcessSessionRequest(s, ses, clientPublic, sessionId);
            && (reply.Err? ==> reply == Err(NotInitialized) && next == ses)
            && (reply.Ok? <==> ses.keyPair.Some?)
            && (reply.Ok? ==>
                && KeyFrom(s, next.key, ses.keyPair.value, clientPublic)
                && next == ses.(sessionId := sessionId, key := next.key, keyInitialized := true)
                && (ses.deviceAuth.None? ==> reply.value == Zeros(16))
                && (ses.deviceAuth.Some? ==>
                      reply.value == HandshakeMac(s, ses.deviceAuth.value,
                                                  ResponseData(sessionId, s.publicOf(ses.keyPair.value), clientPublic))))
  {
    hide HandshakeMac, ResponseData;
  }

  /** Server: check the client's MAC; an unknown user or a bad MAC is `Ok(false)`, not an error. */
  function VerifyAuthenticateMac(s: Suite, ses: Session, clientPublic: Point, userId: byte, mac: Octets)
    : (r: (Session, Reply<bool>))
    ensures r.1 != Ok(true) ==> r.0 == ses
  {
    if userId != ses.userId then (ses, Ok(false))
    else if ses.keyPair.None? then (ses, Err(NotInitialized))
    else if !Verifies(s, ses.userPassword,
                      AuthenticateData(userId, s.publicOf(ses.keyPair.value), clientPublic), mac) then
      (ses, Ok(false))
    else (ses.(state := Authenticated), Ok(true))
  }

  /** Every login: accepted exactly for the configured user with the MAC of the configured password. */
  lemma LoginOutcome(s: Suite, ses: Session, clientPublic: Point, userId: byte, mac: Octets)
    ensures var (next, reply) := VerifyAuthenticateMac(s, ses, clientPublic, userId, mac);
            && (reply == Ok(true) <==>
                && userId == ses.userId && ses.keyPair.Some?
                && mac == HandshakeMac(s, ses.userPassword,
                                       AuthenticateData(userId, s.publicOf(ses.keyPair.value), clientPublic)))
            && (reply == Err(NotInitialized) <==> userId == ses.userId && ses.keyPair.None?)
            && (reply.Err? ==> reply == Err(NotInitialized))
            && next == if reply == Ok(true) then ses.(state := Authenticated) else ses
  {
    hide HandshakeMac, Verifies, AuthenticateData;
    if ses.keyPair.Some? {
      VerifiesExactlyTheMac(s, ses.userPassword,
                            AuthenticateData(userId, s.publicOf(ses.keyPair.value), clientPublic), mac);
    }
  }

  function CompleteAuthentication(ses: Session, status: byte): (r: (Session, Reply<()>)) {
    if status != 0 then (ses.(state := Failed), Err(AuthenticationFailed))
    else (ses.(state := Authenticated), Ok(()))
  }

  function Close(ses: Session): (r: Session) {
    ses.(state := Closed, key := Zeros(16), keyInitialized := false)
  }

  // ---- The secure channel ----

  function WrapperHeader(payloadLength: nat): (r: Octets)
    ensures |r| == 6
  {
    [0x06, 0x10, 0x09, 0x50] + U16Bytes(38 + payloadLength)
  }

  /** Sequence number, serial number and message tag: the shared prefix of block 0 and of counter 0. */
  function SecurityInfo(seqNo: nat): (r: Octets)
    ensures |r| == 14
  {
    ToBe(seqNo, 6) + Zeros(6) + [0x00, 0x00]
  }

  function FrameMac(s: Suite, key: Block, header: Octets, sessionId: u16, info: Octets, plain: Octets): (r: Octets)
    requires |info| == 14
    ensures |r| == 16
  {
    MacCbc(s, key, header + U16Bytes(sessionId), plain, info + U16Bytes(|plain|)).value
  }

  /** The SecureWrapper frame for one plaintext under one sequence number. */
  function SealFrame(s: Suite, key: Block, sessionId: u16, seqNo: nat, plain: Octets): (r: Octets) {
    var header := WrapperHeader(|plain|);
    var info := SecurityInfo(seqNo);
    var mac := FrameMac(s, key, header, sessionId, info, plain);
    var sealed := Ctr(s, key, info + [0xFF, 0x00], mac, plain).value;
    header + U16Bytes(sessionId) + info + sealed.0 + sealed.1
  }

  function EncryptFrame(s: Suite, ses: Session, plain: Octets): (r: (Session, Reply<Octets>)) {
    if !ses.keyInitialized then (ses, Err(KeyMissing))
    else (ses.(sendSeq := (ses.sendSeq + 1) % U64_LIMIT),
          Ok(SealFrame(s, ses.key, ses.sessionId, ses.sendSeq, plain)))
  }

  function FrameSequence(frame: Octets): (n: nat)
    requires |frame| >= 38
  {
    FromBe(frame[8..14])
  }

  predicate Stale(last: nat, received: nat) {
    received <= last && last != 0
  }

  /** The plaintext and MAC recovered from a wrapper, before verification. */
  function Unmask(s: Suite, key: Block, frame: Octets): (r: (Octets, Octets))
    requires |frame| >= 38
  {
    Ctr(s, key, frame[8..22] + [0xFF, 0x00], frame[|frame| - 16..], frame[22..|frame| - 16]).value
  }

  function DecryptFrame(s: Suite, ses: Session, frame: Octets): (r: (Session, Reply<Octets>))
    ensures r.1.Err? ==> r.0 == ses
    ensures r.1.Ok? ==> |frame| >= 38 && r.0 == ses.(recvSeq := FrameSequence(frame))
  {
    if !ses.keyInitialized then (ses, Err(KeyMissing))
    else if |frame| < 38 then (ses, Err(FrameTooShort))
    else if U16From(frame[6], frame[7]) != ses.sessionId then (ses, Err(WrongSession))
    else if Stale(ses.recvSeq, FrameSequence(frame)) then (ses, Err(StaleSequence))
    else
      var (plain, mac) := Unmask(s, ses.key, frame);
      if FrameMac(s, ses.key, frame[..6], ses.sessionId, frame[8..22], plain) != mac then (ses, Err(MacMismatch))
      else (ses.(recvSeq := FrameSequence(frame)), Ok(plain))
  }
}
