/** Whole lives of a session object: any calls in any order, successful or not. */
module SessionRuns {
  import opened Bytes
  import opened Primitives
  import opened SessionSteps

  datatype Call =
    | Begin(privateKey: Point)
    | Response(sessionId: u16, serverPublic: Point, mac: Octets)
    | Request(clientPublic: Point, id: u16)
    | Login(client: Point, userId: byte, loginMac: Octets)
    | Status(code: byte)
    | Seal(plain: Octets)
    | Open(frame: Octets)
    | Shut

  function Step(s: Suite, ses: Session, c: Call): (r: Session) {
    match c
    case Begin(privateKey) => Initialize(ses, privateKey)
    case Response(id, peer, mac) => ProcessSessionResponse(s, ses, id, peer, mac).0
    case Request(peer, id) => ProcessSessionRequest(s, ses, peer, id).0
    case Login(peer, user, mac) => VerifyAuthenticateMac(s, ses, peer, user, mac).0
    case Status(code) => CompleteAuthentication(ses, code).0
    case Seal(plain) => EncryptFrame(s, ses, plain).0
    case Open(frame) => DecryptFrame(s, ses, frame).0
    case Shut => Close(ses)
  }

  /** A new session after some calls. */
  function After(s: Suite, c: Config, calls: seq<Call>): (r: Session) {
    if calls == [] then New(s, c)
    else Step(s, After(s, c, calls[..|calls| - 1]), calls[|calls| - 1])
  }

  /** A handshake message that the session accepts, which gives it a key. */
  predicate Derives(s: Suite, ses: Session, c: Call) {
    || (c.Response? && ProcessSessionResponse(s, ses, c.sessionId, c.serverPublic, c.mac).1.Ok?)
    || (c.Request? && ProcessSessionRequest(s, ses, c.clientPublic, c.id).1.Ok?)
  }

  /** A login the server accepts, or the status that tells the client so. */
  predicate Confirms(s: Suite, ses: Session, c: Call) {
    || (c.Login? && VerifyAuthenticateMac(s, ses, c.client, c.userId, c.loginMac).1 == Ok(true))
    || (c.Status? && c.code == 0)
  }

  predicate Unconfirms(c: Call) {
    c.Begin? || c.Shut? || (c.Status? && c.code != 0)
  }

  /** The calls up to position `i`, and the session on which call `i` is made. */
  function Before(s: Suite, c: Config, calls: seq<Call>, i: nat): (r: Session)
    requires i <= |calls|
  {
    After(s, c, calls[..i])
  }

  /** Some handshake message was accepted, and the session has not been closed since. */
  ghost predicate Keyed(s: Suite, c: Config, calls: seq<Call>) {
    exists i :: 0 <= i < |calls| && Derives(s, Before(s, c, calls, i), calls[i])
                && forall j :: i < j < |calls| ==> !calls[j].Shut?
  }

  ghost predicate Confirmed(s: Suite, c: Config, calls: seq<Call>) {
    exists i :: 0 <= i < |calls| && Confirms(s, Before(s, c, calls, i), calls[i])
                && forall j :: i < j < |calls| ==> !Unconfirms(calls[j])
  }

  lemma BeforeShorter(s: Suite, c: Config, calls: seq<Call>, i: nat)
    requires i < |calls|
    ensures Before(s, c, calls, i) == Before(s, c, calls[..|calls| - 1], i)
  {
    assert calls[..|calls| - 1][..i] == calls[..i];
  }

  lemma KeyedStep(s: Suite, c: Config, calls: seq<Call>)
    requires calls != []
    ensures var shorter, last := calls[..|calls| - 1], calls[|calls| - 1];
            Keyed(s, c, calls) <==>
            Derives(s, After(s, c, shorter), last) || (Keyed(s, c, shorter) && !last.Shut?)
  {
    hide Derives, After;
    var n := |calls| - 1;
    var shorter := calls[..n];
    forall i | 0 <= i < n ensures Before(s, c, calls, i) == Before(s, c, shorter, i) {
      BeforeShorter(s, c, calls, i);
    }
    hide Before;
    assert Before(s, c, calls, n) == After(s, c, shorter) by {
      LastBefore(s, c, calls);
    }
    if Keyed(s, c, calls) {
      var i :| 0 <= i < |calls| && Derives(s, Before(s, c, calls, i), calls[i])
               && forall j :: i < j < |calls| ==> !calls[j].Shut?;
      if i < n {
        assert Derives(s, Before(s, c, shorter, i), shorter[i]);
      }
    }
    if Keyed(s, c, shorter) && !calls[n].Shut? {
      var i :| 0 <= i < n && Derives(s, Before(s, c, shorter, i), shorter[i])
               && forall j :: i < j < n ==> !shorter[j].Shut?;
      assert Derives(s, Before(s, c, calls, i), calls[i]);
    }
  }

  lemma LastBefore(s: Suite, c: Config, calls: seq<Call>)
    requires calls != []
    ensures Before(s, c, calls, |calls| - 1) == After(s, c, calls[..|calls| - 1])
  {
  }

  lemma ConfirmedStep(s: Suite, c: Config, calls: seq<Call>)
    requires calls != []
    ensures var shorter, last := calls[..|calls| - 1], calls[|calls| - 1];
            Confirmed(s, c, calls) <==>
            Confirms(s, After(s, c, shorter), last) || (Confirmed(s, c, shorter) && !Unconfirms(last))
  {
    hide Confirms, After, Unconfirms;
    var n := |calls| - 1;
    var shorter := calls[..n];
    forall i | 0 <= i < n ensures Before(s, c, calls, i) == Before(s, c, shorter, i) {
      BeforeShorter(s, c, calls, i);
    }
    hide Before;
    assert Before(s, c, calls, n) == After(s, c, shorter) by {
      LastBefore(s, c, calls);
    }
    if Confirmed(s, c, calls) {
      var i :| 0 <= i < |calls| && Confirms(s, Before(s, c, calls, i), calls[i])
               && forall j :: i < j < |calls| ==> !Unconfirms(calls[j]);
      if i < n {
        assert Confirms(s, Before(s, c, shorter, i), shorter[i]);
      }
    }
    if Confirmed(s, c, shorter) && !Unconfirms(calls[n]) {
      var i :| 0 <= i < n && Confirms(s, Before(s, c, shorter, i), shorter[i])
               && forall j :: i < j < n ==> !Unconfirms(shorter[j]);
      assert Confirms(s, Before(s, c, calls, i), calls[i]);
    }
  }

  /** What one call does to the key and to the state. */
  lemma StepKeyAndState(s: Suite, ses: Session, c: Call)
    ensures var next := Step(s, ses, c);
            && (next.keyInitialized <==> Derives(s, ses, c) || (ses.keyInitialized && !c.Shut?))
            && (c.Shut? ==> next.key == Zeros(16))
            && (!Derives(s, ses, c) && !c.Shut? ==> next.key == ses.key)
            && (next.state == Authenticated <==> Confirms(s, ses, c) || (ses.state == Authenticated && !Unconfirms(c)))
  {
    hide HandshakeMac, Verifies, ResponseData, AuthenticateData, SealFrame, SessionKeyOf;
    match c {
      case Response(id, peer, mac) => ResponseOutcome(s, ses, id, peer, mac);
      case Request(peer, id) => RequestOutcome(s, ses, peer, id);
      case Open(frame) => OpenChangesNumber(s, ses, frame);
      case _ =>
    }
  }

  lemma OpenChangesNumber(s: Suite, ses: Session, frame: Octets)
    ensures var next := DecryptFrame(s, ses, frame).0; next == ses.(recvSeq := next.recvSeq)
  {
    hide DecryptFrame;
    var r := DecryptFrame(s, ses, frame);
    assert r.1.Err? || r.1.Ok?;
  }

  /**
    * In every life of a session: it holds a key exactly when a handshake message was accepted since it was last closed,
    * and otherwise its key is all zeros; and it is authenticated exactly when a login or a zero status was the last of
    * the calls that decide that.
    */
  lemma {:induction false} KeyAndStateExactly(s: Suite, c: Config, calls: seq<Call>)
    ensures var ses := After(s, c, calls);
            && (ses.keyInitialized <==> Keyed(s, c, calls))
            && (!ses.keyInitialized ==> ses.key == Zeros(16))
            && (ses.state == Authenticated <==> Confirmed(s, c, calls))
    decreases |calls|
  {
    hide Keyed, Confirmed, Derives, Confirms, Unconfirms, Step;
    if calls == [] {
      NothingYet(s, c);
    } else {
      var shorter, last := calls[..|calls| - 1], calls[|calls| - 1];
      KeyAndStateExactly(s, c, shorter);
      KeyedStep(s, c, calls);
      ConfirmedStep(s, c, calls);
      StepKeyAndState(s, After(s, c, shorter), last);
    }
  }

  lemma NothingYet(s: Suite, c: Config)
    ensures !Keyed(s, c, []) && !Confirmed(s, c, [])
  {
  }

  /** Frames are refused for want of a key exactly when there is none, and then nothing changes. */
  lemma RefusedWithoutKey(s: Suite, ses: Session, plain: Octets, frame: Octets)
    ensures EncryptFrame(s, ses, plain).1 == Err(KeyMissing) <==> !ses.keyInitialized
    ensures EncryptFrame(s, ses, plain).1.Ok? <==> ses.keyInitialized
    ensures DecryptFrame(s, ses, frame).1 == Err(KeyMissing) <==> !ses.keyInitialized
    ensures !ses.keyInitialized ==> EncryptFrame(s, ses, plain).0 == ses && DecryptFrame(s, ses, frame).0 == ses
  {
    hide SealFrame, Unmask, FrameMac;
  }

  /** So a session seals and opens frames in no life before a handshake. */
  lemma SealsExactlyWhenKeyed(s: Suite, c: Config, calls: seq<Call>, plain: Octets, frame: Octets)
    ensures EncryptFrame(s, After(s, c, calls), plain).1.Ok? <==> Keyed(s, c, calls)
    ensures DecryptFrame(s, After(s, c, calls), frame).1 == Err(KeyMissing) <==> !Keyed(s, c, calls)
  {
    hide After, Keyed, EncryptFrame, DecryptFrame;
    KeyAndStateExactly(s, c, calls);
    RefusedWithoutKey(s, After(s, c, calls), plain, frame);
  }

  /** After a close every frame is refused, and the key is gone, until the next handshake message is accepted. */
  lemma ClosedUntilHandshake(
    s: Suite, c: Config, calls: seq<Call>, more: seq<Call>, plain: Octets, frame: Octets)
    requires var all := calls + [Shut] + more;
             forall i :: |calls| < i < |all| ==> !Derives(s, Before(s, c, all, i), all[i])
    ensures var ses := After(s, c, calls + [Shut] + more);
            && ses.key == Zeros(16)
            && EncryptFrame(s, ses, plain) == (ses, Err(KeyMissing))
            && DecryptFrame(s, ses, frame) == (ses, Err(KeyMissing))
  {
    var all := calls + [Shut] + more;
    assert !Keyed(s, c, all) by {
      assert all[|calls|].Shut?;
      hide Before, After;
    }
    hide After, Keyed, EncryptFrame, DecryptFrame;
    KeyAndStateExactly(s, c, all);
    RefusedWithoutKey(s, After(s, c, all), plain, frame);
  }

  // ---- Counters ----

  function Low64(n: nat): (r: nat) {
    n % 0x1_0000_0000_0000_0000
  }

  /** Frames sealed since the last handshake was begun. */
  function SealedSince(s: Suite, c: Config, calls: seq<Call>): (n: nat) {
    if calls == [] then 0
    else
      var shorter, last := calls[..|calls| - 1], calls[|calls| - 1];
      if last.Begin? then 0
      else SealedSince(s, c, shorter) + if last.Seal? && After(s, c, shorter).keyInitialized then 1 else 0
  }

  /** In every life the next frame carries the number of frames sealed since the handshake was begun. */
  lemma {:induction false} CountsSealed(s: Suite, c: Config, calls: seq<Call>)
    ensures After(s, c, calls).sendSeq == Low64(SealedSince(s, c, calls))
    decreases |calls|
  {
    hide Step, Low64;
    if calls == [] {
      Low64Next(0);
    } else {
      var shorter, last := calls[..|calls| - 1], calls[|calls| - 1];
      CountsSealed(s, c, shorter);
      StepCounts(s, After(s, c, shorter), last);
      Low64Next(SealedSince(s, c, shorter));
    }
  }

  lemma StepCounts(s: Suite, ses: Session, c: Call)
    ensures Step(s, ses, c).sendSeq ==
            if c.Begin? then 0
            else if c.Seal? && ses.keyInitialized then Low64(ses.sendSeq + 1)
            else ses.sendSeq
  {
    hide HandshakeMac, Verifies, ResponseData, AuthenticateData, SealFrame, SessionKeyOf;
    if c.Open? {
      OpenChangesNumber(s, ses, c.frame);
    }
  }

  lemma Low64Next(n: nat)
    ensures Low64(0) == 0 && Low64(Low64(n) + 1) == Low64(n + 1)
  {
  }

  /** The number of the last frame opened since the last handshake was begun, or zero. */
  function OpenedSince(s: Suite, c: Config, calls: seq<Call>): (n: nat) {
    if calls == [] then 0
    else
      var shorter, last := calls[..|calls| - 1], calls[|calls| - 1];
      if last.Begin? then 0
      else if last.Open? && DecryptFrame(s, After(s, c, shorter), last.frame).1.Ok? then FromBe(last.frame[8..14])
      else OpenedSince(s, c, shorter)
  }

  /** In every life the number below which frames are stale is that one. */
  lemma {:induction false} CountsOpened(s: Suite, c: Config, calls: seq<Call>)
    ensures After(s, c, calls).recvSeq == OpenedSince(s, c, calls)
    decreases |calls|
  {
    hide Step;
    if calls != [] {
      var shorter, last := calls[..|calls| - 1], calls[|calls| - 1];
      CountsOpened(s, c, shorter);
      StepNumbers(s, After(s, c, shorter), last);
    }
  }

  lemma StepNumbers(s: Suite, ses: Session, c: Call)
    ensures Step(s, ses, c).recvSeq ==
            if c.Begin? then 0
            else if c.Open? && DecryptFrame(s, ses, c.frame).1.Ok? then FromBe(c.frame[8..14])
            else ses.recvSeq
  {
    hide HandshakeMac, Verifies, ResponseData, AuthenticateData, SealFrame, SessionKeyOf, Unmask, FrameMac, FromBe;
  }
}
