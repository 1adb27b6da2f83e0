/** The session object: fields updated in place, frames assembled by appending to buffers. */
module SecureSessions {
  import opened Bytes
  import opened Primitives
  import opened SessionSteps

  /** A sealed frame, written as it is put together. */
  lemma SealedStepwise(s: Suite, key: Block, sessionId: u16, seqNo: nat, plain: Octets)
    ensures var header := [0x06, 0x10, 0x09, 0x50] + U16Bytes(38 + |plain|);
            var info := ToBe(seqNo, 6) + Zeros(6) + [0x00, 0x00];
            var mac := MacCbc(s, key, header + U16Bytes(sessionId), plain, info + U16Bytes(|plain|)).value;
            var sealed := Ctr(s, key, info + [0xFF, 0x00], mac, plain);
            && sealed.Ok?
            && SealFrame(s, key, sessionId, seqNo, plain)
               == header + U16Bytes(sessionId) + info + sealed.value.0 + sealed.value.1
  {
    hide ToBe, U16Bytes, MacCbc;
  }

  /** Build the wrapper around a plaintext: header, security information, MAC, then everything in order. */
  method Seal(s: Suite, key: Block, sessionId: u16, ghost seqNo: nat, sequenceInfo: Octets, plain: Octets)
    returns (frame: Octets)
    requires sequenceInfo == ToBe(seqNo, 6)
    ensures frame == SealFrame(s, key, sessionId, seqNo, plain)
  {
    hide ToBe, U16Bytes, MacCbc, Ctr, SealFrame;
    SealedStepwise(s, key, sessionId, seqNo, plain);
    var header := [0x06, 0x10, 0x09, 0x50];
    header := header + U16Bytes(38 + |plain|);
    var info := sequenceInfo + Zeros(6);
    info := info + [0x00, 0x00];
    var mac := CalculateMacCbc(s, key, header + U16Bytes(sessionId), plain, info + U16Bytes(|plain|));
    var sealed := RunCtr(s, key, info + [0xFF, 0x00], mac.value, plain);
    frame := header;
    frame := frame + U16Bytes(sessionId);
    frame := frame + info;
    frame := frame + sealed.value.0;
    frame := frame + sealed.value.1;
  }

  class SecureSession {
    const suite: Suite
    var sessionId: u16
    var sessionKey: Block
    var keyInitialized: bool
    var sequenceNumber: nat
    var sequenceNumberReceived: nat
    var state: State
    var keyPair: Option<Point>
    var deviceAuthCode: Option<Block>
    var userPassword: Block
    var userId: byte

    /** The session as a value: every method below takes one step of the `SessionSteps` module on it. */
    ghost function Value(): (r: Session)
      reads this
    {
      Session(sessionId, sessionKey, keyInitialized, sequenceNumber, sequenceNumberReceived, state,
              keyPair, deviceAuthCode, userPassword, userId)
    }

    constructor (suite: Suite, config: Config)
      ensures this.suite == suite && Value() == New(suite, config)
    {
      this.suite := suite;
      sessionId, sessionKey, keyInitialized := 0, Zeros(16), false;
      sequenceNumber, sequenceNumberReceived := 0, 0;
      state, keyPair := Uninitialized, None;
      deviceAuthCode := if config.deviceAuthPassword.Some?
        then Some(suite.deviceKdf(config.deviceAuthPassword.value)) else None;
      userPassword, userId := suite.userKdf(config.userPassword), config.userId;
    }

    method Initialize(privateKey: Point) returns (publicKey: Point)
      modifies this
      ensures Value() == SessionSteps.Initialize(old(Value()), privateKey)
      ensures publicKey == suite.publicOf(privateKey)
    {
      publicKey := suite.publicOf(privateKey);
      keyPair := Some(privateKey);
      state := Handshaking;
      sequenceNumber := 0;
      sequenceNumberReceived := 0;
    }

    method MacOver(secret: Block, data: Octets) returns (mac: Octets)
      ensures mac == PlainMac(suite, secret, data)
    {
      var r := CalculateMacCbc(suite, secret, data, [], Zeros(16));
      mac := r.value;
    }

    method MaskMac(secret: Block, mac: Octets) returns (masked: Octets)
      ensures masked == CtrXor(suite, secret, COUNTER_0_HANDSHAKE, 0, mac)
    {
      var r := RunCtr(suite, secret, COUNTER_0_HANDSHAKE, mac, []);
      masked := r.value.1;
    }

    method ProcessSessionResponse(id: u16, serverPublic: Point, serverMac: Octets) returns (r: Reply<Octets>)
      modifies this
      ensures (Value(), r) == SessionSteps.ProcessSessionResponse(suite, old(Value()), id, serverPublic, serverMac)
    {
      if keyPair.None? {
        return Err(NotInitialized);
      }
      hide U16Bytes, XorOctets, PlainMac, CtrXor, HandshakeMac, AuthenticateData;
      var own := suite.publicOf(keyPair.value);
      if deviceAuthCode.Some? {
        var data := [0x06, 0x10, 0x09, 0x52, 0x00, 0x38];
        data := data + U16Bytes(id);
        data := data + XorOctets(own, serverPublic);
        var macCbc := MacOver(deviceAuthCode.value, data);
        var macReceived := MaskMac(deviceAuthCode.value, serverMac);
        assert data == ResponseData(id, own, serverPublic);
        if macCbc != macReceived {
          return Err(AuthenticationFailed);
        }
      }
      sessionId := id;
      sessionKey := suite.sha256(suite.exchange(keyPair.value, serverPublic))[..16];
      keyInitialized := true;
      var mac := GenerateAuthenticateMac(own, serverPublic);
      return Ok(mac);
    }

    method GenerateAuthenticateMac(own: Point, serverPublic: Point) returns (mac: Octets)
      ensures mac == HandshakeMac(suite, userPassword, AuthenticateData(userId, own, serverPublic))
    {
      var data := [0x06, 0x10, 0x09, 0x53, 0x00, 0x18];
      data := data + [0x00];
      data := data + [userId];
      data := data + XorOctets(own, serverPublic);
      assert data == AuthenticateData(userId, own, serverPublic);
      var macCbc := MacOver(userPassword, data);
      mac := MaskMac(userPassword, macCbc);
    }

    method ProcessSessionRequest(clientPublic: Point, id: u16) returns (r: Reply<Octets>)
      modifies this
      ensures (Value(), r) == SessionSteps.ProcessSessionRequest(suite, old(Value()), clientPublic, id)
    {
      if keyPair.None? {
        return Err(NotInitialized);
      }
      sessionId := id;
      sessionKey := suite.sha256(suite.exchange(keyPair.value, clientPublic))[..16];
      keyInitialized := true;
      if deviceAuthCode.None? {
        return Ok(Zeros(16));
      }
      var own := suite.publicOf(keyPair.value);
      var data := [0x06, 0x10, 0x09, 0x52, 0x00, 0x38];
      data := data + U16Bytes(id);
      data := data + XorOctets(own, clientPublic);
      assert data == ResponseData(id, own, clientPublic);
      var macCbc := MacOver(deviceAuthCode.value, data);
      var mac := MaskMac(deviceAuthCode.value, macCbc);
      return Ok(mac);
    }

    method VerifyAuthenticateMac(clientPublic: Point, receivedUserId: byte, receivedMac: Octets)
      returns (r: Reply<bool>)
      modifies this
      ensures (Value(), r) ==
              SessionSteps.VerifyAuthenticateMac(suite, old(Value()), clientPublic, receivedUserId, receivedMac)
    {
      if receivedUserId != userId {
        return Ok(false);
      }
      if keyPair.None? {
        return Err(NotInitialized);
      }
      var own := suite.publicOf(keyPair.value);
      var data := [0x06, 0x10, 0x09, 0x53, 0x00, 0x18];
      data := data + [0x00];
      data := data + [receivedUserId];
      data := data + XorOctets(own, clientPublic);
      assert data == AuthenticateData(receivedUserId, own, clientPublic);
      var macCbc := MacOver(userPassword, data);
      var macReceived := MaskMac(userPassword, receivedMac);
      if macCbc != macReceived {
        return Ok(false);
      }
      state := Authenticated;
      return Ok(true);
    }

    method CompleteAuthentication(status: byte) returns (r: Reply<()>)
      modifies this
      ensures (Value(), r) == SessionSteps.CompleteAuthentication(old(Value()), status)
    {
      if status != 0x00 {
        state := Failed;
        return Err(AuthenticationFailed);
      }
      state := Authenticated;
      return Ok(());
    }

    method NextSequenceNumber() returns (info: Octets)
      modifies this`sequenceNumber
      ensures info == ToBe(old(sequenceNumber), 6)
      ensures sequenceNumber == (old(sequenceNumber) + 1) % U64_LIMIT
    {
      info := ToBe(sequenceNumber, 6);
      sequenceNumber := (sequenceNumber + 1) % U64_LIMIT;
    }

    method EncryptFrame(plain: Octets) returns (r: Reply<Octets>)
      modifies this
      ensures (Value(), r) == SessionSteps.EncryptFrame(suite, old(Value()), plain)
    {
      if !keyInitialized {
        return Err(KeyMissing);
      }
      ghost var seqNo := sequenceNumber;
      var sequenceInfo := NextSequenceNumber();
      var frame := Seal(suite, sessionKey, sessionId, seqNo, sequenceInfo, plain);
      return Ok(frame);
    }

    method DecryptFrame(frame: Octets) returns (r: Reply<Octets>)
      modifies this
      ensures (Value(), r) == SessionSteps.DecryptFrame(suite, old(Value()), frame)
    {
      if !keyInitialized {
        return Err(KeyMissing);
      }
      if |frame| < 38 {
        return Err(FrameTooShort);
      }
      if U16From(frame[6], frame[7]) != sessionId {
        return Err(WrongSession);
      }
      var sequenceInfo := frame[8..14];
      var serialNumber := frame[14..20];
      var messageTag := frame[20..22];
      var received := FromBe(sequenceInfo);
      if received <= sequenceNumberReceived && sequenceNumberReceived != 0 {
        return Err(StaleSequence);
      }
      var info := sequenceInfo + serialNumber + messageTag;
      assert info == frame[8..22];
      var unmasked := RunCtr(suite, sessionKey, info + [0xFF, 0x00], frame[|frame| - 16..], frame[22..|frame| - 16]);
      var plain, macReceived := unmasked.value.0, unmasked.value.1;
      var additional := frame[..6] + U16Bytes(sessionId);
      var macCbc := CalculateMacCbc(suite, sessionKey, additional, plain, info + U16Bytes(|plain|));
      if macCbc.value != macReceived {
        return Err(MacMismatch);
      }
      sequenceNumberReceived := received;
      return Ok(plain);
    }

    method Close()
      modifies this
      ensures Value() == SessionSteps.Close(old(Value()))
    {
      state := Closed;
      sessionKey := Zeros(16);
      keyInitialized := false;
    }
  }
}
