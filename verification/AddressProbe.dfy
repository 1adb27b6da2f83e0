/** Probing the bus for an occupied individual address, and choosing a free one. */
module AddressProbe {
  import opened Bytes
  import opened Addresses
  import opened Cemi
  import CemiCodec
  import CemiTrip
  import KnxIp

  const T_DISCONNECT: byte := 0x81

  // ---- Requests ----

  /** The hand-assembled `L_Data.req`: it always writes the TPCI octet. */
  function RequestBytes(src: IndividualAddress, dst: IndividualAddress, tpci: byte, apci: Octets): (r: Octets) {
    [0x11, 0x00, 0xB4, 0x60] + U16Bytes(src) + U16Bytes(dst) + [|apci| % 256, tpci] + apci
  }

  /** The frame those octets stand for. */
  function RequestFrame(src: IndividualAddress, dst: IndividualAddress, tpci: byte, apci: Octets): (f: Frame) {
    CemiCodec.NewFrame(LDataReq, src, Individual(dst), apci).(tpci := tpci)
  }

  /** `build_ldata_req_cemi` appends octet by octet. */
  method BuildRequest(src: IndividualAddress, dst: IndividualAddress, tpci: byte, apci: Octets)
    returns (cemi: Octets)
    ensures cemi == RequestBytes(src, dst, tpci, apci)
  {
    cemi := [0x11];
    cemi := cemi + [0x00];
    cemi := cemi + [0xB4];
    cemi := cemi + [0x60];
    cemi := cemi + U16Bytes(src);
    cemi := cemi + U16Bytes(dst);
    cemi := cemi + [|apci| % 256];
    cemi := cemi + [tpci];
    cemi := cemi + apci;
  }

  /** Against the serializer: equal when there is APCI data, one TPCI octet more when there is none. */
  lemma AgainstSerializer(src: IndividualAddress, dst: IndividualAddress, tpci: byte, apci: Octets)
    requires |apci| <= 255
    ensures var f := RequestFrame(src, dst, tpci, apci);
            RequestBytes(src, dst, tpci, apci) == FrameBytes(f) + (if apci == [] then [tpci] else [])
  {
    hide U16Bytes;
    var f := RequestFrame(src, dst, tpci, apci);
    assert HeadBytes(f) == [0xB4, 0x60] + U16Bytes(src) + U16Bytes(dst);
  }

  // ---- Replies ----

  /** The parsed frame; for an empty NPDU the TPCI octet is fetched from behind the length octet. */
  function ParseReply(raw: Octets): (r: Result<Frame, CemiError>) {
    var parsed :- ParseFrame(raw);
    var f := parsed.frame;
    if f.dataLength == 0 && f.tpci == 0 then
      var index := 2 + raw[1] as int + 2 + (if f.extended.Some? then 1 else 0) + 4 + 1;
      Ok(if index < |raw| then f.(tpci := raw[index]) else f)
    else Ok(f)
  }

  /** The octet fetched is the first one the frame parser left unread. */
  lemma FetchedOctetFollowsFrame(raw: Octets)
    requires ParseFrame(raw).Ok? && ParseFrame(raw).value.frame.dataLength == 0
    ensures var (f, used) := (ParseFrame(raw).value.frame, ParseFrame(raw).value.used);
            used == 2 + raw[1] as int + 2 + (if f.extended.Some? then 1 else 0) + 4 + 1
  {
    hide Infos, CodeOf, ControlOf, ExtendedOf, U16From, DestinationOf;
  }

  lemma ReplyIs(raw: Octets, f: Frame, used: nat)
    requires ParseFrame(raw) == Ok(Parsed(f, used)) && f.dataLength == 0 && f.tpci == 0
    ensures ParseReply(raw) == Ok(if used < |raw| then f.(tpci := raw[used]) else f)
  {
    hide ParseFrame;
    FetchedOctetFollowsFrame(raw);
  }

  /** A frame without APCI data loses its TPCI octet in the frame parser and keeps it here, whatever else it carries. */
  lemma EmptyFrameKeepsTpci(f: Frame, tpci: byte, rest: Octets)
    requires WellFormed(f) && f.dataLength == 0
    ensures var raw := FrameBytes(f) + [tpci] + rest;
            ParseFrame(raw) == Ok(Parsed(f, |FrameBytes(f)|)) && f.tpci == 0 && ParseReply(raw) == Ok(f.(tpci := tpci))
  {
    hide ParseFrame, FrameBytes, ParseReply;
    var raw := FrameBytes(f) + [tpci] + rest;
    assert raw == FrameBytes(f) + ([tpci] + rest);
    CemiTrip.FrameRoundTrip(f, [tpci] + rest);
    ReplyIs(raw, f, |FrameBytes(f)|);
  }

  /** A frame with APCI data is read as the frame parser reads it. */
  lemma FullFrameUnchanged(f: Frame, rest: Octets)
    requires WellFormed(f) && f.dataLength > 0
    ensures ParseReply(FrameBytes(f) + rest) == Ok(f)
  {
    hide ParseFrame, FrameBytes, WellFormed;
    CemiTrip.FrameRoundTrip(f, rest);
  }

  /** What a request carries is read back exactly when its APCI data fits the length octet. */
  lemma RequestRoundTrip(src: IndividualAddress, dst: IndividualAddress, tpci: byte, apci: Octets)
    ensures ParseReply(RequestBytes(src, dst, tpci, apci)) == Ok(RequestFrame(src, dst, tpci, apci)) <==> |apci| <= 255
  {
    hide ParseReply, FrameBytes, RequestBytes;
    var f := RequestFrame(src, dst, tpci, apci);
    if |apci| > 255 {
      ReplyIsShort(RequestBytes(src, dst, tpci, apci));
    } else {
      AgainstSerializer(src, dst, tpci, apci);
      RequestWellFormed(src, dst, tpci, apci);
      if apci == [] {
        EmptyFrameKeepsTpci(f.(tpci := 0), tpci, []);
        SameBytesWithoutData(f);
        assert FrameBytes(f) + [tpci] + [] == FrameBytes(f) + [tpci];
      } else {
        FullFrameUnchanged(f, []);
      }
    }
  }

  lemma SameBytesWithoutData(f: Frame)
    requires f.dataLength == 0
    ensures FrameBytes(f) == FrameBytes(f.(tpci := 0))
  {
  }

  lemma RequestWellFormed(src: IndividualAddress, dst: IndividualAddress, tpci: byte, apci: Octets)
    requires |apci| <= 255
    ensures WellFormed(RequestFrame(src, dst, if apci == [] then 0 else tpci, apci))
  {
  }

  lemma ReplyIsShort(raw: Octets)
    ensures ParseReply(raw).Ok? ==> |ParseReply(raw).value.apciData| <= 255
  {
    hide ParseFrame, WellFormed;
    if ParseFrame(raw).Ok? {
      CemiTrip.ParsedIsWellFormed(raw);
      CemiTrip.DataFits(ParseFrame(raw).value.frame);
    }
  }

  // ---- Signals ----

  /** A device descriptor response, or a disconnect. */
  predicate Occupies(f: Frame) {
    || (f.tpci % 4 == 3 && f.apciData != [] && f.apciData[0] / 64 == 1)
    || f.tpci == T_DISCONNECT
  }

  /** The cEMI octets of a received tunnelling request. */
  function RequestCemi(data: Octets): (r: Option<Octets>) {
    var packet := KnxIp.ParsePacket(data);
    if packet.Err? || packet.value.header.service != KnxIp.TunnellingRequest then None
    else
      var request := KnxIp.ParseTunnelled(packet.value.body);
      if request.None? then None else Some(request.value.cemi)
  }

  predicate Signals(data: Octets) {
    var cemi := RequestCemi(data);
    cemi.Some? && ParseReply(cemi.value).Ok? && Occupies(ParseReply(cemi.value).value)
  }

  /** The packet parser slices out of range on this datagram. */
  predicate Unsliceable(data: Octets) {
    KnxIp.ParsePacket(data) == Err(KnxIp.Unsliceable)
  }

  /** The first `n` receives bring frames that can be parsed or skipped, none of which signals. */
  predicate Unrelated(arrivals: seq<Option<Octets>>, n: nat)
    requires n <= |arrivals|
  {
    forall k :: 0 <= k < n ==> arrivals[k].Some? && !Unsliceable(arrivals[k].value) && !Signals(arrivals[k].value)
  }

  /** `recv_until_signal`, with what the receives bring before the timeout: frames, or a transport failure. */
  method ReceiveUntilSignal(arrivals: seq<Option<Octets>>) returns (r: Result<bool, SelectError>)
    ensures r == Ok(true) <==>
            exists i :: 0 <= i < |arrivals| && Unrelated(arrivals, i) && arrivals[i].Some? && Signals(arrivals[i].value)
    ensures r == Err(ProbeFailed) <==> exists i :: 0 <= i < |arrivals| && Unrelated(arrivals, i) && arrivals[i].None?
    ensures r == Err(Panicked) <==>
            exists i :: 0 <= i < |arrivals| && Unrelated(arrivals, i)
                        && arrivals[i].Some? && Unsliceable(arrivals[i].value)
    ensures r == Ok(false) <==> Unrelated(arrivals, |arrivals|)
  {
    hide ParseReply, Occupies, KnxIp.ParsePacket, KnxIp.ParseTunnelled;
    var i := 0;
    while i < |arrivals|
      invariant i <= |arrivals| && Unrelated(arrivals, i)
    {
      if arrivals[i].None? {
        return Err(ProbeFailed);
      }
      var data := arrivals[i].value;
      i := i + 1;
      var packet := KnxIp.ParsePacket(data);
      if packet == Err(KnxIp.Unsliceable) {
        assert Unrelated(arrivals, i - 1) && Unsliceable(arrivals[i - 1].value);
        return Err(Panicked);
      }
      if packet.Err? {
        continue;
      }
      if packet.value.header.service != KnxIp.TunnellingRequest {
        continue;
      }
      var request := KnxIp.ParseTunnelled(packet.value.body);
      if request.None? {
        continue;
      }
      var reply := ParseReply(request.value.cemi);
      if reply.Ok? && Occupies(reply.value) {
        assert Unrelated(arrivals, i - 1) && Signals(arrivals[i - 1].value);
        return Ok(true);
      }
    }
    return Ok(false);
  }

  /** A reply in a tunnelling request. */
  function ReplyBytes(channel: byte, sequence: byte, cemi: Octets): (r: Octets) {
    KnxIp.PacketBytes(KnxIp.NewPacket(KnxIp.TunnellingRequest,
                                      KnxIp.TunnelledBytes(KnxIp.Tunnelled(channel, sequence, cemi))))
  }

  lemma ReplyCemi(channel: byte, sequence: byte, cemi: Octets)
    requires |cemi| + 10 < 0x1_0000
    ensures RequestCemi(ReplyBytes(channel, sequence, cemi)) == Some(cemi)
  {
    hide KnxIp.ParsePacket, KnxIp.PacketBytes, KnxIp.ParseTunnelled;
    var t := KnxIp.Tunnelled(channel, sequence, cemi);
    KnxIp.TunnelledRoundTrip(t);
    KnxIp.PacketRoundTrip(KnxIp.TunnellingRequest, KnxIp.TunnelledBytes(t), []);
    var bytes := ReplyBytes(channel, sequence, cemi);
    assert bytes + [] == bytes;
  }

  /** The disconnect octet: a control octet (bit 7) without a number (bits 6 to 2 clear) and code 1. */
  predicate IsDisconnect(tpci: byte) {
    tpci / 128 == 1 && (tpci / 4) % 32 == 0 && tpci % 4 == 1
  }

  /**
   * A bare transport control frame, with any addresses, additional info and extended control, proves the address
   * occupied if and only if it is a disconnect.
   */
  lemma BareControlSignals(channel: byte, sequence: byte, f: Frame, tpci: byte)
    requires WellFormed(f) && f.dataLength == 0
    ensures Signals(ReplyBytes(channel, sequence, FrameBytes(f) + [tpci])) <==> IsDisconnect(tpci)
  {
    hide ParseReply, FrameBytes, ReplyBytes, RequestCemi, InfoBytes;
    var raw := FrameBytes(f) + [tpci];
    CemiTrip.FrameSize(f);
    ReplyCemi(channel, sequence, raw);
    EmptyFrameKeepsTpci(f, tpci, []);
    assert raw + [] == raw;
    NoData(f);
  }

  lemma NoData(f: Frame)
    requires WellFormed(f) && f.dataLength == 0
    ensures f.apciData == []
  {
  }

  /** A frame with data does so if and only if it carries the descriptor response or the disconnect octet. */
  lemma DataSignals(channel: byte, sequence: byte, f: Frame)
    requires WellFormed(f) && f.dataLength > 0
    ensures Signals(ReplyBytes(channel, sequence, FrameBytes(f)))
            <==> (f.tpci % 4) * 256 + (f.apciData[0] / 64) * 64 == 0x340 || IsDisconnect(f.tpci)
  {
    hide ParseReply, FrameBytes, ReplyBytes, RequestCemi, InfoBytes;
    CemiTrip.FrameSize(f);
    ReplyCemi(channel, sequence, FrameBytes(f));
    FullFrameUnchanged(f, []);
    assert FrameBytes(f) + [] == FrameBytes(f);
    DataPresent(f);
  }

  lemma DataPresent(f: Frame)
    requires WellFormed(f) && f.dataLength > 0
    ensures f.apciData != []
  {
  }

  // ---- Choosing an address ----

  const FIRST_DEVICE: nat := 240
  const LAST_DEVICE: nat := 254

  /** `Panicked`: a datagram arrived that the packet parser cannot slice. */
  datatype SelectError = NoFreeAddress | ProbeFailed | Panicked

  /** The candidate at a device number: area, line and device shifted into place and joined bit by bit. */
  function Candidate(area: byte, line: byte, device: byte): (a: IndividualAddress)
    ensures area <= 15 && line <= 15 ==> Some(a) == PackIndividual(area, line, device)
  {
    assert Pow2(4) == 16;
    OrBits(area % 16, line / 16, 4) * 4096 + (line % 16) * 256 + device
  }

  /** Bit by bit, for any area and line: what of the line exceeds four bits falls on the bits of the area. */
  lemma CandidateBits(area: byte, line: byte, device: byte, j: nat)
    requires j < 16
    ensures BitAt(Candidate(area, line, device), j) <==>
            if j < 8 then BitAt(device, j)
            else BitAt(line, j - 8) || (j >= 12 && BitAt(area, j - 12))
  {
    hide BitAt;
    var high := OrBits(area % 16, line / 16, 4);
    var low := (line % 16) * 256 + device;
    Powers();
    assert Candidate(area, line, device) == high * Pow2(12) + low;
    BitsJoined(high, low, 12, j);
    BitsJoined(line % 16, device, 8, j);
    if j >= 12 {
      OrBitsAt(area % 16, line / 16, 4, j - 12);
      assert area == (area / 16) * Pow2(4) + area % 16 && line == (line / 16) * Pow2(4) + line % 16;
      BitsJoined(area / 16, area % 16, 4, j - 12);
      BitsJoined(line / 16, line % 16, 4, j - 8);
    } else if j >= 8 {
      assert line == (line / 16) * Pow2(4) + line % 16;
      BitsJoined(line / 16, line % 16, 4, j - 8);
    }
  }

  lemma Powers()
    ensures Pow2(4) == 16 && Pow2(8) == 256 && Pow2(12) == 4096
  {
    assert Pow2(4) == 16;
    assert Pow2(8) == 256;
  }

  /** Skipped without bus traffic, or probed and found occupied. */
  predicate Passed(taken: set<IndividualAddress>, probe: IndividualAddress -> Option<bool>, a: IndividualAddress) {
    a in taken || probe(a) == Some(true)
  }

  /** So are all candidates with device numbers from 240 up to `device`, exclusively. */
  predicate AllPassed(
    taken: set<IndividualAddress>, probe: IndividualAddress -> Option<bool>, area: byte, line: byte, device: nat)
    requires device <= 255
  {
    forall e :: 240 <= e < device ==> Passed(taken, probe, Candidate(area, line, e))
  }

  /**
   * `auto_select_address`: `taken` holds the claimed and the known-occupied addresses, `probe` answers for the bus
   * (`None` when the transport fails).
   */
  method AutoSelect(taken: set<IndividualAddress>, probe: IndividualAddress -> Option<bool>, area: byte, line: byte)
    returns (r: Result<IndividualAddress, SelectError>)
    ensures forall a :: r == Ok(a) <==>
              exists d :: 240 <= d <= 254 && AllPassed(taken, probe, area, line, d) && a == Candidate(area, line, d)
                          && a !in taken && probe(a) == Some(false)
    ensures r == Err(NoFreeAddress) <==> AllPassed(taken, probe, area, line, 255)
    ensures r == Err(ProbeFailed) <==>
            exists d :: 240 <= d <= 254 && AllPassed(taken, probe, area, line, d)
                        && Candidate(area, line, d) !in taken && probe(Candidate(area, line, d)) == None
  {
    var device := FIRST_DEVICE;
    while device <= LAST_DEVICE
      invariant FIRST_DEVICE <= device <= LAST_DEVICE + 1
      invariant AllPassed(taken, probe, area, line, device)
    {
      var address := Candidate(area, line, device);
      if address !in taken {
        var occupied := probe(address);
        if occupied.None? {
          assert !Passed(taken, probe, Candidate(area, line, device));
          return Err(ProbeFailed);
        }
        if !occupied.value {
          assert !Passed(taken, probe, Candidate(area, line, device));
          return Ok(address);
        }
      }
      device := device + 1;
    }
    return Err(NoFreeAddress);
  }
}
