/** cEMI frames: the values, their octets, and the parser, as functions. */
module Cemi {
  import opened Bytes
  import opened Addresses

  datatype MessageCode =
    | LDataReq | LDataCon | LDataInd | LBusmonInd | LRawReq | LRawInd | LRawCon
    | MPropReadReq | MPropReadCon | MPropWriteReq | MPropWriteCon

  datatype FrameType = Extended | Standard

  datatype AddressType = IndividualType | GroupType

  datatype Priority = System | Normal | Urgent | Low

  datatype ControlField = ControlField(
    frameType: FrameType,
    repeat: bool,
    systemBroadcast: bool,
    priority: Priority,
    ackRequest: bool,
    confirm: bool,
    destinationType: AddressType,
    hopCount: byte)

  datatype ExtendedControl = ExtendedControl(destinationType: AddressType, hopCount: byte, format: byte)

  datatype Info = Info(infoType: byte, data: Octets)

  datatype Frame = Frame(
    messageCode: MessageCode,
    additionalInfo: seq<Info>,
    control: ControlField,
    extended: Option<ExtendedControl>,
    source: IndividualAddress,
    destination: Address,
    dataLength: byte,
    tpci: byte,
    apciData: Octets)

  datatype CemiError =
    | TooShort
    | UnknownMessageCode
    | InfoTruncated
    | InfoIncomplete
    | InfoOverrun
    | HeaderTruncated
    | InvalidGroupAddress
    | LengthMissing
    | PayloadTruncated

  // ---- Field codecs ----

  function CodeByte(c: MessageCode): (b: byte) {
    match c
    case LDataReq => 0x11
    case LDataCon => 0x2E
    case LDataInd => 0x29
    case LBusmonInd => 0x2B
    case LRawReq => 0x10
    case LRawInd => 0x2D
    case LRawCon => 0x2F
    case MPropReadReq => 0xFC
    case MPropReadCon => 0xFB
    case MPropWriteReq => 0xF6
    case MPropWriteCon => 0xF5
  }

  function CodeOf(b: byte): (r: Option<MessageCode>) {
    match b
    case 0x11 => Some(LDataReq)
    case 0x2E => Some(LDataCon)
    case 0x29 => Some(LDataInd)
    case 0x2B => Some(LBusmonInd)
    case 0x10 => Some(LRawReq)
    case 0x2D => Some(LRawInd)
    case 0x2F => Some(LRawCon)
    case 0xFC => Some(MPropReadReq)
    case 0xFB => Some(MPropReadCon)
    case 0xF6 => Some(MPropWriteReq)
    case 0xF5 => Some(MPropWriteCon)
    case _ => None
  }

  /** The bit of value `weight` (a power of two) is set. */
  predicate Bit(b: byte, weight: nat)
    requires weight > 0
  {
    (b / weight) % 2 == 1
  }

  function AddressTypeOf(b: byte): (r: AddressType) {
    if Bit(b, 0x80) then GroupType else IndividualType
  }

  function PriorityOf(n: nat): (p: Priority) {
    match n
    case 0 => System
    case 1 => Normal
    case 2 => Urgent
    case _ => Low
  }

  function PriorityBits(p: Priority): (n: nat)
    ensures n < 4 && PriorityOf(n) == p
  {
    match p
    case System => 0
    case Normal => 1
    case Urgent => 2
    case Low => 3
  }

  /** The two control octets; repeat and system broadcast are stored inverted. */
  function ControlOf(high: byte, low: byte): (c: ControlField) {
    ControlField(
      if Bit(high, 0x80) then Standard else Extended,
      !Bit(high, 0x20),
      !Bit(high, 0x10),
      PriorityOf((high / 4) % 4),
      Bit(high, 0x02),
      Bit(high, 0x01),
      AddressTypeOf(low),
      (low / 16) % 8)
  }

  function Flag(on: bool, weight: nat): (n: nat) {
    if on then weight else 0
  }

  function ControlHigh(c: ControlField): (b: byte) {
    Flag(c.frameType == Standard, 0x80) + Flag(!c.repeat, 0x20) + Flag(!c.systemBroadcast, 0x10)
    + PriorityBits(c.priority) * 4 + Flag(c.ackRequest, 0x02) + Flag(c.confirm, 0x01)
  }

  function ControlLow(c: ControlField): (b: byte) {
    Flag(c.destinationType == GroupType, 0x80) + (c.hopCount % 8) * 16
  }

  function ExtendedOf(b: byte): (e: ExtendedControl) {
    ExtendedControl(AddressTypeOf(b), (b / 16) % 8, b % 16)
  }

  function ExtendedByte(e: ExtendedControl): (b: byte) {
    Flag(e.destinationType == GroupType, 0x80) + (e.hopCount % 8) * 16 + e.format % 16
  }

  // ---- Serialization ----

  function InfoBytes(infos: seq<Info>): (r: Octets) {
    if infos == [] then []
    else [infos[0].infoType, |infos[0].data| % 256] + infos[0].data + InfoBytes(infos[1..])
  }

  function RawAddress(a: Address): (r: u16) {
    match a
    case Group(g) => g
    case Individual(i) => i
  }

  /** Control octets up to the destination address. */
  function HeadBytes(f: Frame): (r: Octets) {
    [ControlHigh(f.control), ControlLow(f.control)]
    + (if f.extended.Some? then [ExtendedByte(f.extended.value)] else [])
    + U16Bytes(f.source) + U16Bytes(RawAddress(f.destination))
  }

  function BodyBytes(f: Frame): (r: Octets) {
    HeadBytes(f) + [f.dataLength] + (if f.dataLength > 0 then [f.tpci] + f.apciData else [])
  }

  function FrameBytes(f: Frame): (r: Octets) {
    [CodeByte(f.messageCode), |InfoBytes(f.additionalInfo)| % 256] + InfoBytes(f.additionalInfo) + BodyBytes(f)
  }

  // ---- Parsing ----

  /** The additional-info fields between two offsets of the frame. */
  function Infos(data: Octets, offset: nat, end: nat): (r: Result<seq<Info>, CemiError>)
    requires end <= |data|
    decreases end - offset
  {
    if offset >= end then Ok([])
    else if offset + 1 >= |data| then Err(InfoIncomplete)
    else
      var next: nat := offset + 2 + data[offset + 1];
      if next > end then Err(InfoOverrun)
      else
        var rest :- Infos(data, next, end);
        Ok([Info(data[offset], data[offset + 2..next])] + rest)
  }

  datatype Parsed = Parsed(frame: Frame, used: nat)

  /** Control field, with address type and hop count taken from the extension octet when there is one. */
  function ControlAndExtension(s: Octets): (r: (ControlField, Option<ExtendedControl>))
    requires |s| >= 3
  {
    var control := ControlOf(s[0], s[1]);
    if control.frameType == Extended then
      var e := ExtendedOf(s[2]);
      (control.(destinationType := e.destinationType, hopCount := e.hopCount), Some(e))
    else (control, None)
  }

  function DestinationOf(kind: AddressType, raw: u16): (r: Result<Address, CemiError>) {
    match kind
    case IndividualType => Ok(Individual(raw))
    case GroupType =>
      var g := TryFromRaw(raw);
      if g.None? then Err(InvalidGroupAddress) else Ok(Group(g.value))
  }

  /** The frame from its control octets on; `used` counts the octets it occupies. */
  function ParseBody(code: MessageCode, infos: seq<Info>, s: Octets): (r: Result<Parsed, CemiError>)
    ensures r.Ok? ==> r.value.used <= |s|
  {
    if |s| < 7 then Err(HeaderTruncated)
    else
      var (control, extended) := ControlAndExtension(s);
      var p := if extended.Some? then 3 else 2;
      var destination :- DestinationOf(control.destinationType, U16From(s[p + 2], s[p + 3]));
      if p + 4 >= |s| then Err(LengthMissing)
      else
        var length: nat := s[p + 4];
        var frame := Frame(code, infos, control, extended, U16From(s[p], s[p + 1]), destination, length, 0, []);
        if length == 0 then Ok(Parsed(frame, p + 5))
        else if |s| < p + 5 + length + 1 then Err(PayloadTruncated)
        else Ok(Parsed(frame.(tpci := s[p + 5], apciData := s[p + 6..p + 6 + length]), p + 6 + length))
  }

  function ParseFrame(data: Octets): (r: Result<Parsed, CemiError>) {
    if |data| < 2 then Err(TooShort)
    else
      var code := CodeOf(data[0]);
      var end := data[1] as int + 2;
      if code.None? then Err(UnknownMessageCode)
      else if |data| < end then Err(InfoTruncated)
      else
        var infos :- Infos(data, 2, end);
        var body :- ParseBody(code.value, infos, data[end..]);
        Ok(body.(used := end + body.used))
  }

  // ---- Well-formed frames ----

  predicate MatchesType(a: Address, t: AddressType) {
    a.Group? <==> t == GroupType
  }

  /** What a frame that came out of the parser always satisfies. */
  ghost predicate WellFormed(f: Frame) {
    && (forall i :: 0 <= i < |f.additionalInfo| ==> |f.additionalInfo[i].data| <= 255)
    && |InfoBytes(f.additionalInfo)| <= 255
    && f.control.hopCount < 8
    && MatchesType(f.destination, f.control.destinationType)
    && (f.control.frameType == Extended <==> f.extended.Some?)
    && (f.extended.Some? ==>
          && f.extended.value.format < 16
          && f.extended.value.destinationType == f.control.destinationType
          && f.extended.value.hopCount == f.control.hopCount)
    && |f.apciData| == f.dataLength
    && (f.dataLength == 0 ==> f.tpci == 0)
  }
}
