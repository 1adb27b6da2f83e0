/** KNX/IP frames and tunnelling requests. */
module KnxIp {
  import opened Bytes

  datatype ServiceType =
    | SearchRequest | SearchResponse | DescriptionRequest | DescriptionResponse
    | ConnectRequest | ConnectResponse | ConnectionstateRequest | ConnectionstateResponse
    | DisconnectRequest | DisconnectResponse
    | DeviceConfigurationRequest | DeviceConfigurationAck
    | TunnellingRequest | TunnellingAck
    | RoutingIndication | RoutingLostMessage | RoutingBusy
    | SecureWrapper | SessionRequest | SessionResponse | SessionAuthenticate | SessionStatus

  function ServiceCode(s: ServiceType): (n: u16) {
    match s
    case SearchRequest => 0x0201
    case SearchResponse => 0x0202
    case DescriptionRequest => 0x0203
    case DescriptionResponse => 0x0204
    case ConnectRequest => 0x0205
    case ConnectResponse => 0x0206
    case ConnectionstateRequest => 0x0207
    case ConnectionstateResponse => 0x0208
    case DisconnectRequest => 0x0209
    case DisconnectResponse => 0x020A
    case DeviceConfigurationRequest => 0x0310
    case DeviceConfigurationAck => 0x0311
    case TunnellingRequest => 0x0420
    case TunnellingAck => 0x0421
    case RoutingIndication => 0x0530
    case RoutingLostMessage => 0x0531
    case RoutingBusy => 0x0532
    case SecureWrapper => 0x0950
    case SessionRequest => 0x0951
    case SessionResponse => 0x0952
    case SessionAuthenticate => 0x0953
    case SessionStatus => 0x0954
  }

  function ServiceOf(n: u16): (r: Option<ServiceType>) {
    match n
    case 0x0201 => Some(SearchRequest)
    case 0x0202 => Some(SearchResponse)
    case 0x0203 => Some(DescriptionRequest)
    case 0x0204 => Some(DescriptionResponse)
    case 0x0205 => Some(ConnectRequest)
    case 0x0206 => Some(ConnectResponse)
    case 0x0207 => Some(ConnectionstateRequest)
    case 0x0208 => Some(ConnectionstateResponse)
    case 0x0209 => Some(DisconnectRequest)
    case 0x020A => Some(DisconnectResponse)
    case 0x0310 => Some(DeviceConfigurationRequest)
    case 0x0311 => Some(DeviceConfigurationAck)
    case 0x0420 => Some(TunnellingRequest)
    case 0x0421 => Some(TunnellingAck)
    case 0x0530 => Some(RoutingIndication)
    case 0x0531 => Some(RoutingLostMessage)
    case 0x0532 => Some(RoutingBusy)
    case 0x0950 => Some(SecureWrapper)
    case 0x0951 => Some(SessionRequest)
    case 0x0952 => Some(SessionResponse)
    case 0x0953 => Some(SessionAuthenticate)
    case 0x0954 => Some(SessionStatus)
    case _ => None
  }

  lemma ServiceRoundTrip(s: ServiceType)
    ensures ServiceOf(ServiceCode(s)) == Some(s)
  {
  }

  datatype Header = Header(headerLength: byte, version: byte, service: ServiceType, totalLength: u16)

  datatype Packet = Packet(header: Header, body: Octets)

  /** `Unsliceable` is the one input on which the source panics instead of returning an error. */
  datatype KnxIpError = HeaderTooShort | BadHeaderLength | BadVersion | UnknownService | FrameTooShort | Unsliceable

  /** A packet for a body; the length field is 16 bits wide. */
  function NewPacket(service: ServiceType, body: Octets): (p: Packet) {
    Packet(Header(6, 0x10, service, (6 + |body| % 0x1_0000) % 0x1_0000), body)
  }

  function HeaderBytes(h: Header): (r: Octets)
    ensures |r| == 6
  {
    [h.headerLength, h.version] + U16Bytes(ServiceCode(h.service)) + U16Bytes(h.totalLength)
  }

  function PacketBytes(p: Packet): (r: Octets) {
    HeaderBytes(p.header) + p.body
  }

  function ParseHeader(data: Octets): (r: Result<Header, KnxIpError>)
    ensures r.Ok? ==> |data| >= 6 && r.value.totalLength == U16From(data[4], data[5])
  {
    if |data| < 6 then Err(HeaderTooShort)
    else if data[0] != 6 then Err(BadHeaderLength)
    else if data[1] != 0x10 then Err(BadVersion)
    else
      var service := ServiceOf(U16From(data[2], data[3]));
      if service.None? then Err(UnknownService)
      else Ok(Header(data[0], data[1], service.value, U16From(data[4], data[5])))
  }

  function ParsePacket(data: Octets): (r: Result<Packet, KnxIpError>) {
    var header :- ParseHeader(data);
    if |data| < header.totalLength then Err(FrameTooShort)
    else if header.totalLength < 6 then Err(Unsliceable)
    else Ok(Packet(header, data[6..header.totalLength]))
  }

  /** The source slices out of range exactly when a valid header announces fewer octets than the header has. */
  lemma UnsliceableExactly(data: Octets)
    ensures ParsePacket(data) == Err(Unsliceable) <==> ParseHeader(data).Ok? && U16From(data[4], data[5]) < 6
  {
    hide ServiceOf;
  }

  /** A search request that announces no octets at all. */
  lemma UnsliceableWitness()
    ensures ParsePacket([6, 0x10, 2, 1, 0, 0]) == Err(Unsliceable)
  {
    assert U16From(2, 1) == 0x0201;
  }

  lemma HeaderRoundTrip(h: Header, rest: Octets)
    requires h.headerLength == 6 && h.version == 0x10
    ensures ParseHeader(HeaderBytes(h) + rest) == Ok(h)
  {
    hide ServiceCode, ServiceOf, U16From, U16Bytes;
    ServiceRoundTrip(h.service);
    U16RoundTrip(ServiceCode(h.service));
    U16RoundTrip(h.totalLength);
    var data := HeaderBytes(h) + rest;
    assert data[2] == U16Bytes(ServiceCode(h.service))[0] && data[3] == U16Bytes(ServiceCode(h.service))[1];
    assert data[4] == U16Bytes(h.totalLength)[0] && data[5] == U16Bytes(h.totalLength)[1];
  }

  /** A packet whose length fits the field is read back, also with more octets behind it. */
  lemma PacketRoundTrip(service: ServiceType, body: Octets, rest: Octets)
    requires |body| + 6 < 0x1_0000
    ensures var p := NewPacket(service, body);
            && ParsePacket(PacketBytes(p) + rest) == Ok(p)
            && |PacketBytes(p)| == p.header.totalLength == |body| + 6
            && U16From(PacketBytes(p)[4], PacketBytes(p)[5]) == |body| + 6
  {
    hide HeaderBytes, ParseHeader, U16From;
    var p := NewPacket(service, body);
    HeaderRoundTrip(p.header, body + rest);
    HeaderRoundTrip(p.header, body);
    BehindHeader(HeaderBytes(p.header), body, rest);
  }

  lemma BehindHeader(header: Octets, body: Octets, rest: Octets)
    requires |header| == 6
    ensures header + body + rest == header + (body + rest)
    ensures (header + body + rest)[6..|body| + 6] == body
  {
  }

  /**
    * Every octet string: it is read as a packet if and only if that packet has a supported header, announces its own
    * length, and is what the string begins with.
    */
  lemma PacketExactly(data: Octets, p: Packet)
    ensures ParsePacket(data) == Ok(p) <==>
            && p.header.headerLength == 6 && p.header.version == 0x10 && p.header.totalLength == 6 + |p.body|
            && PacketBytes(p) <= data
  {
    hide HeaderBytes, U16From, U16Bytes, ServiceOf, ServiceCode;
    if ParsePacket(data) == Ok(p) {
      ServiceBack(U16From(data[2], data[3]));
      U16Back(data[2], data[3]);
      U16Back(data[4], data[5]);
      HeaderBack(data, p.header);
      assert data[..6] + data[6..p.header.totalLength] == data[..p.header.totalLength];
    }
    if p.header.headerLength == 6 && p.header.version == 0x10 && p.header.totalLength == 6 + |p.body|
       && PacketBytes(p) <= data {
      var rest := data[6 + |p.body|..];
      assert data == PacketBytes(p) + rest;
      BehindHeader(HeaderBytes(p.header), p.body, rest);
      HeaderRoundTrip(p.header, p.body + rest);
    }
  }

  lemma HeaderBack(data: Octets, h: Header)
    requires |data| >= 6 && h.headerLength == data[0] && h.version == data[1]
    requires U16Bytes(ServiceCode(h.service)) == [data[2], data[3]] && U16Bytes(h.totalLength) == [data[4], data[5]]
    ensures HeaderBytes(h) == data[..6]
  {
    hide U16Bytes, ServiceCode;
  }

  /** Every accepted service code is the code of the service it gives. */
  lemma ServiceBack(code: u16)
    requires ServiceOf(code).Some?
    ensures ServiceCode(ServiceOf(code).value) == code
  {
  }

  // ---- Tunnelling requests ----

  datatype Tunnelled = Tunnelled(channel: byte, sequenceCounter: byte, cemi: Octets)

  function TunnelledBytes(t: Tunnelled): (r: Octets) {
    [0x04, t.channel, t.sequenceCounter, 0x00] + t.cemi
  }

  function ParseTunnelled(data: Octets): (r: Option<Tunnelled>) {
    if |data| < 4 || data[0] != 4 then None else Some(Tunnelled(data[1], data[2], data[4..]))
  }

  lemma TunnelledRoundTrip(t: Tunnelled)
    ensures ParseTunnelled(TunnelledBytes(t)) == Some(t)
  {
    assert TunnelledBytes(t)[4..] == t.cemi;
  }

  /** Every octet string: it is read as a request if and only if it is the octets of that, the reserved one being any. */
  lemma TunnelledExactly(data: Octets, t: Tunnelled)
    ensures ParseTunnelled(data) == Some(t) <==>
            |data| >= 4 && data == TunnelledBytes(t)[3 := data[3]]
  {
    if |data| >= 4 {
      assert data == [data[0], data[1], data[2], data[3]] + data[4..];
      var bytes := TunnelledBytes(t)[3 := data[3]];
      assert bytes == [0x04, t.channel, t.sequenceCounter, data[3]] + t.cemi;
      assert bytes[4..] == t.cemi;
    }
  }

  /** Which refusal an octet string draws, by its octets. */
  lemma PacketRefusals(data: Octets)
    ensures var r := ParsePacket(data);
            var long := |data| >= 6;
            var ours := long && data[0] == 6 && data[1] == 0x10;
            var known := ours && exists s :: ServiceCode(s) == U16From(data[2], data[3]);
            && (r == Err(HeaderTooShort) <==> !long)
            && (r == Err(BadHeaderLength) <==> long && data[0] != 6)
            && (r == Err(BadVersion) <==> long && data[0] == 6 && data[1] != 0x10)
            && (r == Err(UnknownService) <==> ours && !known)
            && (r == Err(FrameTooShort) <==> known && |data| < U16From(data[4], data[5]))
            && (r.Ok? <==> known && 6 <= U16From(data[4], data[5]) <= |data|)
  {
    if |data| >= 6 {
      KnownService(U16From(data[2], data[3]));
    }
    hide ServiceOf, ServiceCode, U16From;
  }

  lemma KnownService(code: u16)
    ensures ServiceOf(code).Some? <==> exists s :: ServiceCode(s) == code
  {
    hide ServiceOf, ServiceCode;
    if ServiceOf(code).Some? {
      ServiceBack(code);
    }
    if s :| ServiceCode(s) == code {
      ServiceRoundTrip(s);
    }
  }
}
