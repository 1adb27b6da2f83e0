/** Telegrams, and their way down and up the protocol stack. */
module Telegrams {
  import opened Bytes
  import opened Addresses
  import Cemi
  import CemiCodec
  import CemiTrip
  import Apci
  import KnxIp
  import FrameTransport

  datatype Priority = System | Normal | Urgent | Low

  datatype Direction = Incoming | Outgoing

  datatype TelegramType = GroupValueRead | GroupValueResponse | GroupValueWrite

  datatype Telegram = Telegram(
    source: IndividualAddress,
    destination: Address,
    payload: Octets,
    priority: Priority,
    direction: Direction,
    kind: TelegramType)

  /** What carries the frame: a tunnel channel with its sequence counter, or multicast routing. */
  datatype Link = Tunnel(channel: byte, sequence: byte) | Routing

  // ---- Down ----

  function ServiceFor(t: Telegram): (s: Apci.Service) {
    if t.payload == [] then Apci.Read else Apci.Write(t.payload)
  }

  function CemiFor(t: Telegram): (f: Cemi.Frame) {
    CemiCodec.NewFrame(Cemi.LDataReq, t.source, t.destination, Apci.Encode(ServiceFor(t)))
  }

  function PacketFor(cemi: Octets, link: Link): (p: KnxIp.Packet) {
    match link
    case Tunnel(channel, sequence) =>
      KnxIp.NewPacket(KnxIp.TunnellingRequest, KnxIp.TunnelledBytes(KnxIp.Tunnelled(channel, sequence, cemi)))
    case Routing => KnxIp.NewPacket(KnxIp.RoutingIndication, cemi)
  }

  /** The octets sent for a telegram. */
  function OutgoingFrame(t: Telegram, link: Link): (r: Octets) {
    KnxIp.PacketBytes(PacketFor(Cemi.FrameBytes(CemiFor(t)), link))
  }

  // ---- Up ----

  function PriorityOf(p: Cemi.Priority): (r: Priority) {
    match p
    case System => System
    case Normal => Normal
    case Urgent => Urgent
    case Low => Low
  }

  function KindOf(s: Apci.Service): (k: TelegramType) {
    match s
    case Read => GroupValueRead
    case Response(_) => GroupValueResponse
    case Write(_) => GroupValueWrite
  }

  /** A frame whose APCI is no group service counts as a write of its raw APCI octets. */
  function TelegramOf(f: Cemi.Frame): (t: Telegram) {
    var service := Apci.Decode(f.tpci, f.apciData);
    var payload := if service.None? || service.value.Read? then f.apciData else service.value.payload;
    var kind := if service.None? then GroupValueWrite else KindOf(service.value);
    Telegram(f.source, f.destination, payload, PriorityOf(f.control.priority), Incoming, kind)
  }

  function ParseCemiToTelegram(cemi: Octets): (r: Option<Telegram>) {
    var parsed := Cemi.ParseFrame(cemi);
    if parsed.Err? then None else Some(TelegramOf(parsed.value.frame))
  }

  /** The telegram in a received KNX/IP frame, if it carries one; none, too, for the datagram the source panics on. */
  function IncomingTelegram(data: Octets): (r: Option<Telegram>) {
    var packet := KnxIp.ParsePacket(data);
    if packet.Err? then None
    else
      match packet.value.header.service
      case TunnellingRequest =>
        var request := KnxIp.ParseTunnelled(packet.value.body);
        if request.None? then None else ParseCemiToTelegram(request.value.cemi)
      case RoutingIndication => ParseCemiToTelegram(packet.value.body)
      case _ => None
  }

  // ---- Down and up ----

  /** Payloads a group write can carry: six bits, or 2 to 254 octets. */
  predicate Carriable(payload: Octets) {
    if |payload| == 1 then payload[0] < 64 else 2 <= |payload| <= 254
  }

  /** What the receiver of a telegram that was sent sees. */
  function Arrived(t: Telegram, payload: Octets, kind: TelegramType): (r: Telegram) {
    Telegram(t.source, t.destination, payload, Normal, Incoming, kind)
  }

  /** A cEMI frame that fits the length field comes through the KNX/IP layers unchanged. */
  lemma LinkRoundTrip(cemi: Octets, link: Link)
    requires |cemi| + 10 < 0x1_0000
    ensures IncomingTelegram(KnxIp.PacketBytes(PacketFor(cemi, link))) == ParseCemiToTelegram(cemi)
    ensures FrameTransport.Framed(KnxIp.PacketBytes(PacketFor(cemi, link)))
  {
    hide ParseCemiToTelegram, KnxIp.ParsePacket, KnxIp.PacketBytes, KnxIp.ParseTunnelled;
    match link {
      case Tunnel(channel, sequence) =>
        var t := KnxIp.Tunnelled(channel, sequence, cemi);
        KnxIp.TunnelledRoundTrip(t);
        KnxIp.PacketRoundTrip(KnxIp.TunnellingRequest, KnxIp.TunnelledBytes(t), []);
      case Routing =>
        KnxIp.PacketRoundTrip(KnxIp.RoutingIndication, cemi, []);
    }
    var bytes := KnxIp.PacketBytes(PacketFor(cemi, link));
    assert bytes + [] == bytes;
  }

  /**
   * The octets that leave for a telegram: `L_Data.req` without additional info, a standard frame at normal priority with
   * six hops, both addresses, and the APCI octets behind their length and an empty TPCI octet.
   */
  lemma CemiOctets(t: Telegram)
    requires |t.payload| <= 254
    ensures var apci := Apci.Encode(ServiceFor(t));
            Cemi.FrameBytes(CemiFor(t)) ==
            [0x11, 0x00, 0xB4, if t.destination.Group? then 0xE0 else 0x60]
            + U16Bytes(t.source) + U16Bytes(Cemi.RawAddress(t.destination)) + [|apci|, 0x00] + apci
  {
    hide U16Bytes, Apci.Encode;
    var f := CemiFor(t);
    NewFrameWellFormed(t);
    ApciPresent(ServiceFor(t));
    assert Cemi.HeadBytes(f) == [0xB4, if t.destination.Group? then 0xE0 else 0x60]
                                + U16Bytes(t.source) + U16Bytes(Cemi.RawAddress(t.destination));
    hide Cemi.HeadBytes;
  }

  lemma ApciPresent(s: Apci.Service)
    ensures |Apci.Encode(s)| > 0
  {
  }

  /** What stands in front of a frame on each link: the header with the total length, and on a tunnel four octets more. */
  lemma LinkOctets(cemi: Octets, link: Link)
    requires |cemi| + 10 < 0x1_0000
    ensures KnxIp.PacketBytes(PacketFor(cemi, link)) ==
            match link
            case Tunnel(channel, sequence) =>
              [0x06, 0x10, 0x04, 0x20] + U16Bytes(10 + |cemi|) + [0x04, channel, sequence, 0x00] + cemi
            case Routing => [0x06, 0x10, 0x05, 0x30] + U16Bytes(6 + |cemi|) + cemi
  {
    assert U16Bytes(KnxIp.ServiceCode(KnxIp.TunnellingRequest)) == [0x04, 0x20];
    assert U16Bytes(KnxIp.ServiceCode(KnxIp.RoutingIndication)) == [0x05, 0x30];
    hide U16Bytes, KnxIp.PacketBytes;
    match link {
      case Tunnel(channel, sequence) =>
        var body := KnxIp.TunnelledBytes(KnxIp.Tunnelled(channel, sequence, cemi));
        PacketOctets(KnxIp.TunnellingRequest, body, [0x04, 0x20]);
        Regrouped([0x06, 0x10, 0x04, 0x20] + U16Bytes(10 + |cemi|), [0x04, channel, sequence, 0x00], cemi);
      case Routing =>
        PacketOctets(KnxIp.RoutingIndication, cemi, [0x05, 0x30]);
    }
  }

  lemma PacketOctets(service: KnxIp.ServiceType, body: Octets, code: Octets)
    requires |body| + 6 < 0x1_0000 && code == U16Bytes(KnxIp.ServiceCode(service))
    ensures KnxIp.PacketBytes(KnxIp.NewPacket(service, body)) == [0x06, 0x10] + code + U16Bytes(6 + |body|) + body
    ensures |code| == 2 ==> [0x06, 0x10] + code == [0x06, 0x10, code[0], code[1]]
  {
    hide U16Bytes;
  }

  lemma Regrouped(a: Octets, b: Octets, c: Octets)
    ensures a + (b + c) == a + b + c
  {
  }

  lemma NewFrameWellFormed(t: Telegram)
    requires |t.payload| <= 254
    ensures Cemi.WellFormed(CemiFor(t)) && |Cemi.FrameBytes(CemiFor(t))| <= 300
    ensures |Apci.Encode(ServiceFor(t))| <= 255
  {
  }

  lemma CemiTelegram(t: Telegram)
    requires |t.payload| <= 254
    ensures ParseCemiToTelegram(Cemi.FrameBytes(CemiFor(t))) == Some(TelegramOf(CemiFor(t)))
  {
    hide Cemi.ParseFrame, Cemi.FrameBytes, CemiFor, Cemi.WellFormed, TelegramOf;
    NewFrameWellFormed(t);
    CemiTrip.FrameRoundTrip(CemiFor(t), []);
    assert Cemi.FrameBytes(CemiFor(t)) + [] == Cemi.FrameBytes(CemiFor(t));
  }

  /** A telegram without payload is a group read; it arrives as one, with the one zero APCI octet as payload. */
  lemma ReadArrives(t: Telegram, link: Link)
    requires t.payload == []
    ensures IncomingTelegram(OutgoingFrame(t, link)) == Some(Arrived(t, [0], GroupValueRead))
  {
    hide ParseCemiToTelegram, Cemi.FrameBytes, IncomingTelegram, KnxIp.PacketBytes, Cemi.WellFormed;
    NewFrameWellFormed(t);
    LinkRoundTrip(Cemi.FrameBytes(CemiFor(t)), link);
    CemiTelegram(t);
  }

  /** A group write small enough to be written arrives with its addresses, as a write. */
  lemma ShortWrite(t: Telegram, link: Link)
    requires 1 <= |t.payload| <= 254
    ensures var r := IncomingTelegram(OutgoingFrame(t, link));
            && r.Some? && r.value == Arrived(t, r.value.payload, GroupValueWrite)
            && (r.value.payload == t.payload <==> Carriable(t.payload))
  {
    NewFrameWellFormed(t);
    assert TelegramOf(CemiFor(t)) ==
           Arrived(t, Apci.Decode(0, Apci.Encode(Apci.Write(t.payload))).value.payload, GroupValueWrite) by {
      Apci.ServiceRoundTrip(t.payload);
      hide Apci.Encode, Apci.Decode;
    }
    Apci.ServiceRoundTrip(t.payload);
    hide ParseCemiToTelegram, Cemi.FrameBytes, IncomingTelegram, KnxIp.PacketBytes, Cemi.WellFormed, CemiFor;
    hide TelegramOf, Apci.Decode, Apci.Encode;
    LinkRoundTrip(Cemi.FrameBytes(CemiFor(t)), link);
    CemiTelegram(t);
  }

  /**
   * A group service in any well-formed frame, with any priority, additional info and extension, arrives as the
   * telegram it stands for; a response or write keeps its payload exactly when that is encodable.
   */
  lemma GroupServiceArrives(f: Cemi.Frame, s: Apci.Service, link: Link)
    requires Cemi.WellFormed(f) && f.tpci == 0 && f.apciData == Apci.Encode(s)
    ensures var r := IncomingTelegram(KnxIp.PacketBytes(PacketFor(Cemi.FrameBytes(f), link)));
            && r.Some?
            && r.value == Telegram(f.source, f.destination, r.value.payload, PriorityOf(f.control.priority), Incoming,
                                   KindOf(s))
            && (!s.Read? ==> (r.value.payload == s.payload <==> Apci.Encodable(s.payload)))
  {
    Apci.ServiceRoundTrip(if s.Read? then [] else s.payload);
    hide Apci.Encode, Apci.Decode, Apci.Encodable, IncomingTelegram, KnxIp.PacketBytes, Cemi.ParseFrame;
    hide Cemi.FrameBytes, Cemi.WellFormed, PriorityOf;
    CemiTrip.FrameSize(f);
    LinkRoundTrip(Cemi.FrameBytes(f), link);
    CemiTrip.FrameRoundTrip(f, []);
    assert Cemi.FrameBytes(f) + [] == Cemi.FrameBytes(f);
  }

  /** The ten service bits are `bits` and zeros: the two of the TPCI octet and the two above the first data octet. */
  predicate HasService(f: Cemi.Frame, bits: nat) {
    f.apciData != [] && f.tpci % 4 == 0 && f.apciData[0] / 64 == bits
  }

  /** What a response or write carries: six bits of the service octet, or the octets behind it. */
  predicate Carries(apci: Octets, payload: Octets) {
    if |apci| == 1 then |payload| == 1 && payload[0] == apci[0] % 64 else |apci| >= 2 && payload == apci[1..]
  }

  predicate SamePriority(p: Cemi.Priority, q: Priority) {
    && (p.System? <==> q.System?) && (p.Normal? <==> q.Normal?)
    && (p.Urgent? <==> q.Urgent?) && (p.Low? <==> q.Low?)
  }

  /**
   * Any well-formed frame at all arrives as a telegram: with its addresses and priority, and of the kind its service
   * bits say. A frame of any other service, or without data, arrives as a write of its raw APCI octets.
   */
  lemma EveryFrameArrives(f: Cemi.Frame, link: Link)
    requires Cemi.WellFormed(f)
    ensures var r := IncomingTelegram(KnxIp.PacketBytes(PacketFor(Cemi.FrameBytes(f), link)));
            && r.Some? && r.value.source == f.source && r.value.destination == f.destination
            && r.value.direction == Incoming && SamePriority(f.control.priority, r.value.priority)
            && (HasService(f, 0) ==> r.value.kind == GroupValueRead && r.value.payload == f.apciData)
            && (HasService(f, 1) ==> r.value.kind == GroupValueResponse && Carries(f.apciData, r.value.payload))
            && (HasService(f, 2) ==> r.value.kind == GroupValueWrite && Carries(f.apciData, r.value.payload))
            && (!HasService(f, 0) && !HasService(f, 1) && !HasService(f, 2) ==>
                  r.value.kind == GroupValueWrite && r.value.payload == f.apciData)
  {
    hide IncomingTelegram, KnxIp.PacketBytes, Cemi.ParseFrame, Cemi.FrameBytes, Cemi.WellFormed;
    CemiTrip.FrameSize(f);
    LinkRoundTrip(Cemi.FrameBytes(f), link);
    CemiTrip.FrameRoundTrip(f, []);
    assert Cemi.FrameBytes(f) + [] == Cemi.FrameBytes(f);
    TelegramByService(f);
    hide HasService, Carries, SamePriority, TelegramOf;
  }

  /** Frames of every other KNX/IP service carry no telegram, whatever is in them. */
  lemma OtherServicesCarryNone(service: KnxIp.ServiceType, body: Octets, rest: Octets)
    requires service != KnxIp.TunnellingRequest && service != KnxIp.RoutingIndication && |body| + 6 < 0x1_0000
    ensures IncomingTelegram(KnxIp.PacketBytes(KnxIp.NewPacket(service, body)) + rest) == None
  {
    hide KnxIp.ParsePacket, KnxIp.PacketBytes;
    KnxIp.PacketRoundTrip(service, body, rest);
  }

  lemma TelegramByService(f: Cemi.Frame)
    ensures var t := TelegramOf(f);
            && t.source == f.source && t.destination == f.destination
            && t.direction == Incoming && SamePriority(f.control.priority, t.priority)
            && (HasService(f, 0) ==> t.kind == GroupValueRead && t.payload == f.apciData)
            && (HasService(f, 1) ==> t.kind == GroupValueResponse && Carries(f.apciData, t.payload))
            && (HasService(f, 2) ==> t.kind == GroupValueWrite && Carries(f.apciData, t.payload))
            && (!HasService(f, 0) && !HasService(f, 1) && !HasService(f, 2) ==>
                  t.kind == GroupValueWrite && t.payload == f.apciData)
  {
  }

  /** No received payload exceeds what one length octet can announce. */
  lemma ReceivedPayloadBound(data: Octets)
    ensures var r := IncomingTelegram(data); r.Some? ==> |r.value.payload| <= 255
  {
    hide KnxIp.ParsePacket, KnxIp.ParseTunnelled, ParseCemiToTelegram;
    var packet := KnxIp.ParsePacket(data);
    if packet.Ok? {
      CemiPayloadBound(packet.value.body);
      var request := KnxIp.ParseTunnelled(packet.value.body);
      if request.Some? {
        CemiPayloadBound(request.value.cemi);
      }
    }
  }

  lemma CemiPayloadBound(cemi: Octets)
    ensures var r := ParseCemiToTelegram(cemi); r.Some? ==> |r.value.payload| <= 255
  {
    hide Cemi.ParseFrame, Cemi.WellFormed;
    var parsed := Cemi.ParseFrame(cemi);
    if parsed.Ok? {
      CemiTrip.ParsedIsWellFormed(cemi);
      CemiTrip.DataFits(parsed.value.frame);
    }
  }

  /** With 255 octets the length octet wraps to zero and nothing behind it is sent. */
  lemma WrappedWrite(t: Telegram, link: Link)
    requires |t.payload| == 255
    ensures var r := IncomingTelegram(OutgoingFrame(t, link)); r.Some? ==> r.value.payload != t.payload
  {
    hide IncomingTelegram, KnxIp.PacketBytes, Cemi.WellFormed, Cemi.ParseFrame, TelegramOf;
    var sent := CemiFor(t);
    var cut := sent.(apciData := []);
    CutBytes(t);
    hide Cemi.FrameBytes, CemiFor;
    LinkRoundTrip(Cemi.FrameBytes(sent), link);
    CutFrame(t);
    CemiTrip.FrameRoundTrip(cut, []);
    assert Cemi.FrameBytes(cut) + [] == Cemi.FrameBytes(cut);
    NothingToDecode(cut);
  }

  lemma CutBytes(t: Telegram)
    requires |t.payload| == 255
    ensures var sent := CemiFor(t);
            Cemi.FrameBytes(sent) == Cemi.FrameBytes(sent.(apciData := [])) && |Cemi.FrameBytes(sent)| <= 300
  {
    hide U16Bytes;
  }

  lemma CutFrame(t: Telegram)
    requires |t.payload| == 255
    ensures Cemi.WellFormed(CemiFor(t).(apciData := []))
  {
  }

  lemma NothingToDecode(f: Cemi.Frame)
    requires f.apciData == []
    ensures TelegramOf(f).payload == []
  {
  }

  /**
   * A telegram with a payload, sent over a tunnel or by routing, is received with the same source, destination
   * and payload, as a group write, exactly when its payload is carriable.
   */
  lemma WriteArrives(t: Telegram, link: Link)
    requires t.payload != []
    ensures IncomingTelegram(OutgoingFrame(t, link)) == Some(Arrived(t, t.payload, GroupValueWrite))
            <==> Carriable(t.payload)
  {
    hide IncomingTelegram, OutgoingFrame;
    if |t.payload| <= 254 {
      ShortWrite(t, link);
    } else if |t.payload| == 255 {
      WrappedWrite(t, link);
    } else {
      ReceivedPayloadBound(OutgoingFrame(t, link));
    }
  }

  // ---- A run of telegrams over a byte stream ----

  /** The one input the packet parser cannot slice never comes out of a byte stream, only out of a datagram. */
  lemma StreamIsSliceable(r: FrameTransport.Reader)
    ensures var result := FrameTransport.Receive(r).1;
            result.Ok? ==> KnxIp.ParsePacket(result.value) != Err(KnxIp.Unsliceable)
                           && KnxIp.ParsePacket(result.value) != Err(KnxIp.FrameTooShort)
  {
    hide KnxIp.ServiceOf, FrameTransport.Receive;
    FrameTransport.ReceivedIsFramed(r);
  }

  /** What a receiver makes of each frame in turn. */
  function Understood(frames: seq<Octets>): (r: seq<Option<Telegram>>) {
    if frames == [] then [] else [IncomingTelegram(frames[0])] + Understood(frames[1..])
  }

  function Frames(ts: seq<(Telegram, Link)>): (r: seq<Octets>) {
    if ts == [] then [] else [OutgoingFrame(ts[0].0, ts[0].1)] + Frames(ts[1..])
  }

  /** A telegram that arrives as the service it stands for: a read, or a write of a carriable payload. */
  predicate Deliverable(t: Telegram) {
    t.payload == [] || Carriable(t.payload)
  }

  /** What the receiver of such a telegram sees. */
  function Seen(t: Telegram): (r: Telegram) {
    if t.payload == [] then Arrived(t, [0], GroupValueRead) else Arrived(t, t.payload, GroupValueWrite)
  }

  function AllSeen(ts: seq<(Telegram, Link)>): (r: seq<Option<Telegram>>) {
    if ts == [] then [] else [Some(Seen(ts[0].0))] + AllSeen(ts[1..])
  }

  lemma TelegramArrives(t: Telegram, link: Link)
    requires Deliverable(t)
    ensures IncomingTelegram(OutgoingFrame(t, link)) == Some(Seen(t))
  {
    hide IncomingTelegram, OutgoingFrame;
    if t.payload == [] {
      ReadArrives(t, link);
    } else {
      WriteArrives(t, link);
    }
  }

  lemma {:induction false} FramesOfTelegrams(ts: seq<(Telegram, Link)>)
    requires forall i :: 0 <= i < |ts| ==> Deliverable(ts[i].0)
    ensures forall f :: f in Frames(ts) ==> FrameTransport.Framed(f)
    ensures Understood(Frames(ts)) == AllSeen(ts)
    ensures |Frames(ts)| == |ts|
  {
    hide IncomingTelegram, OutgoingFrame, FrameTransport.Framed, Seen;
    if ts != [] {
      var (t, link) := ts[0];
      assert Deliverable(t);
      TelegramArrives(t, link);
      OutgoingFramed(t, link);
      FramesOfTelegrams(ts[1..]);
      var rest := Frames(ts[1..]);
      assert Frames(ts)[1..] == rest && Frames(ts)[0] == OutgoingFrame(t, link);
    }
  }

  lemma OutgoingFramed(t: Telegram, link: Link)
    requires |t.payload| <= 254
    ensures FrameTransport.Framed(OutgoingFrame(t, link))
  {
    hide Cemi.FrameBytes, Cemi.WellFormed, CemiFor, KnxIp.PacketBytes;
    NewFrameWellFormed(t);
    LinkRoundTrip(Cemi.FrameBytes(CemiFor(t)), link);
  }

  /**
   * Any reads, and writes with carriable payloads, written to a stream back to back and read in chunks of any sizes, are
   * received in order and complete, and then the stream ends.
   */
  lemma TelegramsOverStream(ts: seq<(Telegram, Link)>, arrivals: seq<Octets>)
    requires forall i :: 0 <= i < |ts| ==> Deliverable(ts[i].0)
    requires forall i :: 0 <= i < |arrivals| ==> arrivals[i] != []
    requires FrameTransport.Concat(arrivals) == FrameTransport.Concat(Frames(ts))
    ensures var (frames, end) :=
              FrameTransport.ReceiveAll(FrameTransport.Reader([], arrivals), |ts| + 1);
            Understood(frames) == AllSeen(ts) && end == Some(FrameTransport.ConnectionClosed)
  {
    hide IncomingTelegram, OutgoingFrame, FrameTransport.Framed, FrameTransport.ReceiveAll;
    FramesOfTelegrams(ts);
    FrameTransport.FramesArrive(Frames(ts), arrivals);
  }
}
