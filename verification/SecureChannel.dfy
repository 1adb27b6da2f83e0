/** Whole runs of a secure channel: a sender, a lossy and reordering network, a receiver. */
module SecureChannel {
  import opened Bytes
  import opened Primitives
  import opened SessionSteps

  lemma FiveParts(header: Octets, id: Octets, info: Octets, data: Octets, mac: Octets)
    requires |header| == 6 && |id| == 2 && |info| == 14 && |mac| == 16
    ensures var f := header + id + info + data + mac;
            && f[..6] == header && f[6] == id[0] && f[7] == id[1]
            && f[8..22] == info && f[8..14] == info[..6]
            && f[22..|f| - 16] == data && f[|f| - 16..] == mac
  {
  }

  /** The field boundaries of a sealed frame. */
  lemma SealedLayout(s: Suite, key: Block, sessionId: u16, seqNo: nat, plain: Octets)
    ensures var f := SealFrame(s, key, sessionId, seqNo, plain);
            var info := SecurityInfo(seqNo);
            var mac := FrameMac(s, key, WrapperHeader(|plain|), sessionId, info, plain);
            var sealed := Ctr(s, key, info + [0xFF, 0x00], mac, plain).value;
            && |f| == 38 + |plain|
            && f[..6] == WrapperHeader(|plain|)
            && U16From(f[6], f[7]) == sessionId
            && f[8..22] == info
            && f[8..14] == ToBe(seqNo, 6)
            && f[22..|f| - 16] == sealed.0
            && f[|f| - 16..] == sealed.1
  {
    hide ToBe, U16Bytes, U16From, MacCbc, Ctr;
    var info := SecurityInfo(seqNo);
    var mac := FrameMac(s, key, WrapperHeader(|plain|), sessionId, info, plain);
    CtrBlocks(s, key, info + [0xFF, 0x00], mac, plain);
    var sealed := Ctr(s, key, info + [0xFF, 0x00], mac, plain).value;
    var id := U16Bytes(sessionId);
    U16RoundTrip(sessionId);
    assert info[..6] == ToBe(seqNo, 6);
    assert SealFrame(s, key, sessionId, seqNo, plain) ==
           WrapperHeader(|plain|) + id + info + sealed.0 + sealed.1;
    hide *;
    FiveParts(WrapperHeader(|plain|), id, info, sealed.0, sealed.1);
  }

  /** The number under which a frame is checked: the counter modulo 2^48. */
  function WireNumber(seqNo: nat): (n: nat) {
    seqNo % WIRE_LIMIT
  }

  /**
    * What a receiver with the same key and session does with a genuine frame: it refuses it exactly when its
    * number is stale, and otherwise returns the plaintext that was sealed and remembers the number.
    */
  lemma OpenSealed(s: Suite, r: Session, seqNo: nat, plain: Octets)
    requires r.keyInitialized
    ensures DecryptFrame(s, r, SealFrame(s, r.key, r.sessionId, seqNo, plain)) ==
            if Stale(r.recvSeq, WireNumber(seqNo)) then (r, Err(StaleSequence))
            else (r.(recvSeq := WireNumber(seqNo)), Ok(plain))
  {
    SealedLayout(s, r.key, r.sessionId, seqNo, plain);
    ToBeFromBe(seqNo, 6);
    Pow256Six();
    var info := SecurityInfo(seqNo);
    var mac := FrameMac(s, r.key, WrapperHeader(|plain|), r.sessionId, info, plain);
    CtrRoundTrip(s, r.key, info + [0xFF, 0x00], mac, plain);
  }

  /** A wrapper with any header, serial number and message tag, sealed under a key and a session. */
  function SealWith(s: Suite, key: Block, header: Octets, sessionId: u16, info: Octets, plain: Octets): (r: Octets)
    requires |header| == 6 && |info| == 14
    ensures |r| == 38 + |plain|
  {
    var sealed := Ctr(s, key, info + [0xFF, 0x00], FrameMac(s, key, header, sessionId, info, plain), plain).value;
    header + U16Bytes(sessionId) + info + sealed.0 + sealed.1
  }

  /** Every octet of a wrapper: the header it was given, the id, the numbers, the masked plaintext, the masked MAC. */
  lemma WrapperOctets(s: Suite, key: Block, header: Octets, sessionId: u16, info: Octets, plain: Octets)
    requires |header| == 6 && |info| == 14
    ensures var f := SealWith(s, key, header, sessionId, info, plain);
            var mac := MacCbc(s, key, f[..8], plain, info + U16Bytes(|plain|));
            && f[..6] == header && f[6..8] == U16Bytes(sessionId) && f[8..22] == info
            && MaskedBy(s, key, info + [0xFF, 0x00], 1, plain, f[22..|f| - 16])
            && mac.Ok? && MaskedBy(s, key, info + [0xFF, 0x00], 0, mac.value, f[|f| - 16..])
  {
    hide MaskedBy, MacCbc, Ctr, U16Bytes;
    var id, mac := U16Bytes(sessionId), FrameMac(s, key, header, sessionId, info, plain);
    CtrBlocks(s, key, info + [0xFF, 0x00], mac, plain);
    var sealed := Ctr(s, key, info + [0xFF, 0x00], mac, plain).value;
    FiveParts(header, id, info, sealed.0, sealed.1);
    FirstTwo(header, id, info, sealed.0, sealed.1);
  }

  lemma FirstTwo(header: Octets, id: Octets, info: Octets, data: Octets, mac: Octets)
    requires |header| == 6 && |id| == 2 && |info| == 14
    ensures var f := header + id + info + data + mac; f[..8] == header + id && f[6..8] == id
  {
  }

  /** A frame as it is sent: protocol header with the total length, id, 48 bits of the counter, eight zero octets. */
  lemma SealedOctets(s: Suite, key: Block, sessionId: u16, seqNo: nat, plain: Octets)
    ensures var f := SealFrame(s, key, sessionId, seqNo, plain);
            && |f| == 38 + |plain|
            && f[..4] == [0x06, 0x10, 0x09, 0x50] && U16From(f[4], f[5]) == |f| % 0x1_0000
            && FromBe(f[8..14]) == seqNo % 0x1_0000_0000_0000 && f[14..22] == [0, 0, 0, 0, 0, 0, 0, 0]
            && f == SealWith(s, key, f[..6], sessionId, f[8..22], plain)
  {
    hide U16Bytes, U16From, Ctr, FrameMac, ToBe, FromBe;
    SealedLayout(s, key, sessionId, seqNo, plain);
    U16RoundTrip(38 + |plain|);
    ToBeFromBe(seqNo, 6);
    Pow256Six();
    var f := SealFrame(s, key, sessionId, seqNo, plain);
    var header, info := WrapperHeader(|plain|), SecurityInfo(seqNo);
    assert f[4] == f[..6][4] == header[4] && f[5] == f[..6][5] == header[5];
    assert f[..4] == f[..6][..4] == header[..4];
    assert f[14..22] == f[8..22][6..] == info[6..];
  }

  /** What a frame authenticates determines all of it: header, id, numbers and plaintext of less than 64 KiB. */
  lemma FrameTextDetermines(
    header: Octets, id: u16, info: Octets, plain: Octets, header': Octets, id': u16, info': Octets, plain': Octets)
    requires |header| == |header'| == 6 && |info| == |info'| == 14 && |plain| < 0x1_0000 && |plain'| < 0x1_0000
    ensures BytePad(MacInput(header + U16Bytes(id), plain, info + U16Bytes(|plain|)), 16)
            == BytePad(MacInput(header' + U16Bytes(id'), plain', info' + U16Bytes(|plain'|)), 16)
            <==> header == header' && id == id' && info == info' && plain == plain'
  {
    hide MacInput, BytePad, U16From, U16Bytes;
    U16RoundTrip(|plain|);
    U16RoundTrip(|plain'|);
    U16RoundTrip(id);
    U16RoundTrip(id');
    var a, a' := header + U16Bytes(id), header' + U16Bytes(id');
    var b, b' := info + U16Bytes(|plain|), info' + U16Bytes(|plain'|);
    ChainedDetermines(a, plain, b, a', plain', b');
    assert a[..6] == header && a[6..] == U16Bytes(id) && a'[..6] == header' && a'[6..] == U16Bytes(id');
    assert b[..14] == info && b'[..14] == info';
  }

  lemma Unmasked(s: Suite, key: Block, frame: Octets)
    requires |frame| >= 38
    ensures var (plain, mac) := Unmask(s, key, frame);
            && |plain| == |frame| - 38
            && Ctr(s, key, frame[8..22] + [0xFF, 0x00], mac, plain)
               == Ok((frame[22..|frame| - 16], frame[|frame| - 16..]))
  {
    CtrRoundTrip(s, key, frame[8..22] + [0xFF, 0x00], frame[|frame| - 16..], frame[22..|frame| - 16]);
  }

  lemma Reassembled(frame: Octets, id: Octets)
    requires |frame| >= 38 && id == [frame[6], frame[7]]
    ensures frame == frame[..6] + id + frame[8..22] + frame[22..|frame| - 16] + frame[|frame| - 16..]
  {
  }

  lemma WithParts(s: Suite, key: Block, header: Octets, sessionId: u16, info: Octets, plain: Octets)
    requires |header| == 6 && |info| == 14
    ensures var f := SealWith(s, key, header, sessionId, info, plain);
            && f[..6] == header && U16From(f[6], f[7]) == sessionId && f[8..22] == info
            && Unmask(s, key, f) == (plain, FrameMac(s, key, header, sessionId, info, plain))
  {
    var mac := FrameMac(s, key, header, sessionId, info, plain);
    var sealed := Ctr(s, key, info + [0xFF, 0x00], mac, plain).value;
    U16RoundTrip(sessionId);
    hide FrameMac, U16From, U16Bytes;
    FiveParts(header, U16Bytes(sessionId), info, sealed.0, sealed.1);
    CtrRoundTrip(s, key, info + [0xFF, 0x00], mac, plain);
  }

  /**
    * Over arbitrary octets: a frame is accepted, with a certain plaintext, exactly when it is that plaintext sealed
    * under the receiver's own key and session, and its number is not stale. Header, serial number and message tag
    * may be any.
    */
  lemma AcceptsExactlySealed(s: Suite, ses: Session, frame: Octets, plain: Octets)
    requires ses.keyInitialized && |frame| >= 38
    ensures DecryptFrame(s, ses, frame).1 == Ok(plain) <==>
            && frame == SealWith(s, ses.key, frame[..6], ses.sessionId, frame[8..22], plain)
            && !Stale(ses.recvSeq, FrameSequence(frame))
  {
    hide Unmask, FrameMac, FrameSequence, Stale, U16From, U16Bytes;
    var (found, mac) := Unmask(s, ses.key, frame);
    if DecryptFrame(s, ses, frame).1 == Ok(plain) {
      Unmasked(s, ses.key, frame);
      U16Back(frame[6], frame[7]);
      Reassembled(frame, [frame[6], frame[7]]);
    } else {
      WithParts(s, ses.key, frame[..6], ses.sessionId, frame[8..22], plain);
    }
  }

  /** Which refusal a frame draws, by its octets; what passes all of these checks fails only for its MAC. */
  lemma RefusedExactly(s: Suite, ses: Session, frame: Octets)
    ensures var reply := DecryptFrame(s, ses, frame).1;
            var long := ses.keyInitialized && |frame| >= 38;
            var own := long && frame[6..8] == U16Bytes(ses.sessionId);
            var stale := own && ses.recvSeq > 0 && FromBe(frame[8..14]) <= ses.recvSeq;
            && (reply == Err(KeyMissing) <==> !ses.keyInitialized)
            && (reply == Err(FrameTooShort) <==> ses.keyInitialized && !long)
            && (reply == Err(WrongSession) <==> long && !own)
            && (reply == Err(StaleSequence) <==> stale)
            && (own && !stale && reply.Err? ==> reply == Err(MacMismatch))
  {
    hide Unmask, FrameMac, U16From, U16Bytes, FromBe;
    if |frame| >= 38 {
      U16Back(frame[6], frame[7]);
      U16RoundTrip(ses.sessionId);
      assert frame[6..8] == [frame[6], frame[7]];
    }
  }

  // ---- Runs ----

  /** Seal plaintexts one after the other. */
  function EncryptAll(s: Suite, ses: Session, plains: seq<Octets>): (r: (Session, seq<Octets>))
    requires ses.keyInitialized
    ensures |r.1| == |plains|
    decreases |plains|
  {
    if plains == [] then (ses, [])
    else
      var (next, frame) := EncryptFrame(s, ses, plains[0]);
      var (last, frames) := EncryptAll(s, next, plains[1..]);
      (last, [frame.value] + frames)
  }

  /** Hand frames to the receiver one after the other. */
  function DecryptAll(s: Suite, ses: Session, frames: seq<Octets>): (r: (Session, seq<Reply<Octets>>))
    ensures |r.1| == |frames|
    decreases |frames|
  {
    if frames == [] then (ses, [])
    else
      var (next, reply) := DecryptFrame(s, ses, frames[0]);
      var (last, replies) := DecryptAll(s, next, frames[1..]);
      (last, [reply] + replies)
  }

  lemma {:induction false} EncryptAllSeals(s: Suite, ses: Session, plains: seq<Octets>, i: nat)
    requires ses.keyInitialized && ses.sendSeq + |plains| <= WIRE_LIMIT && i < |plains|
    ensures EncryptAll(s, ses, plains).1[i] == SealFrame(s, ses.key, ses.sessionId, ses.sendSeq + i, plains[i])
    decreases i
  {
    hide SealFrame, EncryptFrame, EncryptAll;
    EncryptStep(s, ses, plains[0]);
    var next := ses.(sendSeq := ses.sendSeq + 1);
    EncryptAllStep(s, ses, plains);
    if i > 0 {
      EncryptAllSeals(s, next, plains[1..], i - 1);
      assert plains[1..][i - 1] == plains[i];
    }
  }

  lemma EncryptStep(s: Suite, ses: Session, plain: Octets)
    requires ses.keyInitialized && ses.sendSeq < WIRE_LIMIT
    ensures EncryptFrame(s, ses, plain) ==
            (ses.(sendSeq := ses.sendSeq + 1), Ok(SealFrame(s, ses.key, ses.sessionId, ses.sendSeq, plain)))
  {
    assert (ses.sendSeq + 1) % U64_LIMIT == ses.sendSeq + 1;
  }

  lemma EncryptAllStep(s: Suite, ses: Session, plains: seq<Octets>)
    requires ses.keyInitialized && plains != []
    ensures var (next, frame) := EncryptFrame(s, ses, plains[0]);
            EncryptAll(s, ses, plains).1 == [frame.value] + EncryptAll(s, next, plains[1..]).1
  {
  }

  lemma DecryptAllStep(s: Suite, ses: Session, frames: seq<Octets>)
    requires frames != []
    ensures var (next, reply) := DecryptFrame(s, ses, frames[0]);
            DecryptAll(s, ses, frames).1 == [reply] + DecryptAll(s, next, frames[1..]).1
  {
  }

  ghost predicate Indices(picks: seq<nat>, n: nat) {
    forall j :: 0 <= j < |picks| ==> picks[j] < n
  }

  /** What the network delivers: sent frames in any order, any number of times, possibly not at all. */
  ghost function Deliver(frames: seq<Octets>, picks: seq<nat>): (r: seq<Octets>)
    requires Indices(picks, |frames|)
    ensures |r| == |picks|
    ensures forall j :: 0 <= j < |picks| ==> r[j] == frames[picks[j]]
  {
    seq(|picks|, j requires 0 <= j < |picks| => frames[picks[j]])
  }

  /** Delivery `j` is fresh: every earlier delivered number is smaller, or is 0. */
  ghost predicate FreshAt(base: nat, picks: seq<nat>, j: nat)
    requires j < |picks|
  {
    forall i :: 0 <= i < j ==> base + picks[i] < base + picks[j] || base + picks[i] == 0
  }

  /** `last` is the largest of the numbers delivered so far, if there was one. */
  ghost predicate Highest(last: nat, base: nat, picks: seq<nat>) {
    && (forall i :: 0 <= i < |picks| ==> base + picks[i] <= last)
    && (last == 0 || exists i :: 0 <= i < |picks| && base + picks[i] == last)
  }

  /**
    * The channel theorem. Any plaintexts sealed in order, delivered with arbitrary loss, duplication and
    * reordering to a receiver that has accepted nothing yet: delivery `j` yields exactly its own plaintext if
    * its number exceeds all earlier delivered ones (a 0 not counting), and is refused as stale otherwise.
    */
  lemma AnyDelivery(s: Suite, sender: Session, receiver: Session, plains: seq<Octets>, picks: seq<nat>, j: nat)
    requires sender.keyInitialized && receiver.keyInitialized
    requires sender.key == receiver.key && sender.sessionId == receiver.sessionId
    requires sender.sendSeq + |plains| <= WIRE_LIMIT && receiver.recvSeq == 0
    requires Indices(picks, |plains|) && j < |picks|
    ensures DecryptAll(s, receiver, Deliver(EncryptAll(s, sender, plains).1, picks)).1[j] ==
            if FreshAt(sender.sendSeq, picks, j) then Ok(plains[picks[j]]) else Err(StaleSequence)
  {
    hide EncryptAll, DecryptAll, FreshAt;
    var frames := EncryptAll(s, sender, plains).1;
    DeliveryFrom(s, sender, receiver, plains, picks, 0, j);
    assert Deliver(frames, picks)[0..] == Deliver(frames, picks);
  }

  /** The induction behind it: the receiver has processed the first `k` deliveries and remembers the highest. */
  lemma {:induction false} DeliveryFrom(
    s: Suite, sender: Session, receiver: Session, plains: seq<Octets>, picks: seq<nat>, k: nat, j: nat)
    requires sender.keyInitialized && receiver.keyInitialized
    requires sender.key == receiver.key && sender.sessionId == receiver.sessionId
    requires sender.sendSeq + |plains| <= WIRE_LIMIT
    requires Indices(picks, |plains|) && k <= j < |picks|
    requires Highest(receiver.recvSeq, sender.sendSeq, picks[..k])
    ensures DecryptAll(s, receiver, Deliver(EncryptAll(s, sender, plains).1, picks)[k..]).1[j - k] ==
            if FreshAt(sender.sendSeq, picks, j) then Ok(plains[picks[j]]) else Err(StaleSequence)
    decreases |picks| - k
  {
    hide SealFrame, EncryptAll, DecryptFrame, DecryptAll, FreshAt, Highest, Stale;
    var base := sender.sendSeq;
    var frames := EncryptAll(s, sender, plains).1;
    var rest := Deliver(frames, picks)[k..];
    var first := SealFrame(s, receiver.key, receiver.sessionId, base + picks[k], plains[picks[k]]);
    assert rest[0] == first by {
      EncryptAllSeals(s, sender, plains, picks[k]);
    }
    var next := DecryptFrame(s, receiver, first).0;
    DecryptAllStep(s, receiver, rest);
    OpenSealed(s, receiver, base + picks[k], plains[picks[k]]);
    HighestStep(receiver.recvSeq, base, picks, k);
    if k < j {
      assert rest[1..] == Deliver(frames, picks)[k + 1..];
      DeliveryFrom(s, sender, next, plains, picks, k + 1, j);
    }
  }

  /** Staleness against the highest number so far is exactly lack of freshness, and the highest is maintained. */
  lemma HighestStep(last: nat, base: nat, picks: seq<nat>, k: nat)
    requires k < |picks| && Highest(last, base, picks[..k])
    ensures Stale(last, base + picks[k]) <==> !FreshAt(base, picks, k)
    ensures Highest(if Stale(last, base + picks[k]) then last else base + picks[k], base, picks[..k + 1])
  {
    var longer := picks[..k + 1];
    assert forall i :: 0 <= i < k ==> longer[i] == picks[..k][i] == picks[i];
    assert longer[k] == picks[k];
    if Stale(last, base + picks[k]) {
      var i :| 0 <= i < k && base + picks[..k][i] == last;
      assert longer[i] == picks[i] && base + picks[i] == last;
    }
  }

  /** An in-order selection of `n` sent frames: some may be missing, none is repeated or overtaken. */
  ghost predicate Selection(picks: seq<nat>, n: nat) {
    Indices(picks, n) && forall i, j :: 0 <= i < j < |picks| ==> picks[i] < picks[j]
  }

  /** Every delivered frame decrypts, each to the plaintext it was made from. */
  ghost predicate ArrivesIntact(
    s: Suite, sender: Session, receiver: Session, plains: seq<Octets>, picks: seq<nat>)
    requires sender.keyInitialized && Indices(picks, |plains|)
  {
    var replies := DecryptAll(s, receiver, Deliver(EncryptAll(s, sender, plains).1, picks)).1;
    forall j :: 0 <= j < |picks| ==> replies[j] == Ok(plains[picks[j]])
  }

  /** Loss alone never costs a delivered frame: an in-order selection decrypts completely. */
  lemma InOrderDelivery(s: Suite, sender: Session, receiver: Session, plains: seq<Octets>, picks: seq<nat>)
    requires sender.keyInitialized && receiver.keyInitialized
    requires sender.key == receiver.key && sender.sessionId == receiver.sessionId
    requires sender.sendSeq + |plains| <= WIRE_LIMIT && receiver.recvSeq == 0
    requires Selection(picks, |plains|)
    ensures ArrivesIntact(s, sender, receiver, plains, picks)
  {
    hide EncryptAll, DecryptAll;
    forall j | 0 <= j < |picks|
      ensures DecryptAll(s, receiver, Deliver(EncryptAll(s, sender, plains).1, picks)).1[j] == Ok(plains[picks[j]])
    {
      AnyDelivery(s, sender, receiver, plains, picks, j);
    }
  }

  // ---- The receiver against arbitrary input ----

  /** The numbers of the frames a receiver accepts, in order. */
  ghost function Accepted(s: Suite, ses: Session, frames: seq<Octets>): (r: seq<nat>)
    decreases |frames|
  {
    if frames == [] then []
    else
      var (next, reply) := DecryptFrame(s, ses, frames[0]);
      (if reply.Ok? then [next.recvSeq] else []) + Accepted(s, next, frames[1..])
  }

  /** Strictly increasing, except that 0 may repeat at the start. */
  ghost predicate Climbing(ns: seq<nat>) {
    forall i, j :: 0 <= i < j < |ns| ==> ns[i] < ns[j] || (ns[i] == ns[j] == 0)
  }

  /**
    * Over any octet strings whatever, the accepted numbers climb from the remembered one: no positive number is
    * accepted twice, none below an accepted one, and the session remembers the last of them.
    */
  lemma {:induction false} AcceptedClimb(s: Suite, ses: Session, frames: seq<Octets>)
    ensures Climbing([ses.recvSeq] + Accepted(s, ses, frames))
    ensures var all := [ses.recvSeq] + Accepted(s, ses, frames);
            DecryptAll(s, ses, frames).0 == ses.(recvSeq := all[|all| - 1])
    decreases |frames|
  {
    if frames != [] {
      var (next, reply) := DecryptFrame(s, ses, frames[0]);
      AcceptedClimb(s, next, frames[1..]);
      var tail := Accepted(s, next, frames[1..]);
      var inner := [next.recvSeq] + tail;
      if reply.Ok? {
        assert [ses.recvSeq] + Accepted(s, ses, frames) == [ses.recvSeq] + inner;
        ClimbingCons(ses.recvSeq, inner);
      } else {
        assert [ses.recvSeq] + Accepted(s, ses, frames) == inner;
      }
    }
  }

  lemma ClimbingCons(n: nat, ns: seq<nat>)
    requires ns != [] && Climbing(ns) && (n < ns[0] || n == 0)
    ensures Climbing([n] + ns)
  {
    var all := [n] + ns;
    forall i, j | 0 <= i < j < |all|
      ensures all[i] < all[j] || (all[i] == all[j] == 0)
    {
      if i == 0 && j > 1 {
        assert ns[0] < ns[j - 1] || (ns[0] == ns[j - 1] == 0);
      }
    }
  }

  /** Handing an accepted frame over a second time: it is taken again exactly when its number is 0. */
  lemma SecondDelivery(s: Suite, ses: Session, frame: Octets)
    requires DecryptFrame(s, ses, frame).1.Ok?
    ensures var (next, first) := DecryptFrame(s, ses, frame);
            DecryptFrame(s, next, frame) ==
            if FrameSequence(frame) == 0 then (next, first) else (next, Err(StaleSequence))
  {
  }
}
