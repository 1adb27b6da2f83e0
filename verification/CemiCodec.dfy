/** The cEMI parser and serializer as they run: a moving offset, and octets appended to a buffer. */
module CemiCodec {
  import opened Bytes
  import opened Addresses
  import opened Cemi

  function FrameOf(r: Result<Parsed, CemiError>): (f: Result<Frame, CemiError>) {
    if r.Ok? then Ok(r.value.frame) else Err(r.error)
  }

  function After(done: seq<Info>, rest: Result<seq<Info>, CemiError>): (r: Result<seq<Info>, CemiError>) {
    if rest.Ok? then Ok(done + rest.value) else rest
  }

  lemma AfterLaws(done: seq<Info>, next: Info, rest: Result<seq<Info>, CemiError>)
    ensures After([], rest) == rest
    ensures After(done + [next], rest) == After(done, After([next], rest))
    ensures After(done, Ok([])) == Ok(done)
  {
    if rest.Ok? {
      assert [] + rest.value == rest.value;
      assert done + [next] + rest.value == done + ([next] + rest.value);
    }
    assert done + [] == done;
  }

  /** The additional-info loop; every index it reads is inside the frame. */
  method ParseInfos(data: Octets, end: nat) returns (r: Result<seq<Info>, CemiError>)
    requires 2 <= end <= |data|
    ensures r == Infos(data, 2, end)
  {
    var infos := [];
    var offset := 2;
    AfterLaws([], Info(0, []), Infos(data, 2, end));
    while offset < end
      invariant 2 <= offset <= end
      invariant Infos(data, 2, end) == After(infos, Infos(data, offset, end))
    {
      if offset + 1 >= |data| {
        return Err(InfoIncomplete);
      }
      var length: nat := data[offset + 1];
      if offset + 2 + length > end {
        return Err(InfoOverrun);
      }
      var info := Info(data[offset], data[offset + 2..offset + 2 + length]);
      AfterLaws(infos, info, Infos(data, offset + 2 + length, end));
      infos := infos + [info];
      offset := offset + 2 + length;
    }
    AfterLaws(infos, Info(0, []), Ok([]));
    return Ok(infos);
  }

  /**
    * Parsing at a moving offset computes `ParseFrame`. The source's separate checks for a missing extension
    * octet, source and destination are implied by its check for seven octets and are not repeated.
    */
  method Parse(data: Octets) returns (r: Result<Frame, CemiError>)
    ensures r == FrameOf(ParseFrame(data))
  {
    if |data| < 2 {
      return Err(TooShort);
    }
    var code := CodeOf(data[0]);
    if code.None? {
      return Err(UnknownMessageCode);
    }
    var offset := data[1] as int + 2;
    if |data| < offset {
      return Err(InfoTruncated);
    }
    var infos := ParseInfos(data, offset);
    if infos.Err? {
      return Err(infos.error);
    }
    hide ParseBody, Infos, CodeOf;
    r := ParseAt(code.value, infos.value, data, offset);
  }

  method ParseAt(code: MessageCode, infos: seq<Info>, data: Octets, start: nat) returns (r: Result<Frame, CemiError>)
    requires start <= |data|
    ensures r == FrameOf(ParseBody(code, infos, data[start..]))
  {
    hide ControlOf, ExtendedOf, DestinationOf, U16From;
    ghost var s := data[start..];
    var offset := start;
    if |data| < offset + 7 {
      return Err(HeaderTruncated);
    }
    var control := ControlOf(data[offset], data[offset + 1]);
    offset := offset + 2;
    var extended := None;
    if control.frameType == Extended {
      var e := ExtendedOf(data[offset]);
      offset := offset + 1;
      control := control.(destinationType := e.destinationType, hopCount := e.hopCount);
      extended := Some(e);
    }
    assert (control, extended) == ControlAndExtension(s);
    hide ControlAndExtension;
    ghost var p := offset - start;
    assert s[p] == data[offset] && s[p + 1] == data[offset + 1];
    assert s[p + 2] == data[offset + 2] && s[p + 3] == data[offset + 3];
    var source := U16From(data[offset], data[offset + 1]);
    offset := offset + 2;
    var destination := DestinationOf(control.destinationType, U16From(data[offset], data[offset + 1]));
    if destination.Err? {
      return Err(destination.error);
    }
    offset := offset + 2;
    if offset >= |data| {
      return Err(LengthMissing);
    }
    var head := Frame(code, infos, control, extended, source, destination.value, data[offset], 0, []);
    assert s[p + 4] == data[offset];
    r := ParsePayload(head, data, offset + 1);
    PayloadShift(head, data, start, p + 5);
  }

  /** TPCI and APCI octets behind the length. */
  method ParsePayload(head: Frame, data: Octets, start: nat) returns (r: Result<Frame, CemiError>)
    requires start <= |data|
    ensures r == PayloadAt(head, data, start)
  {
    var offset := start;
    var length: nat := head.dataLength;
    var tpdu := if length == 0 then 0 else length + 1;
    if |data| < offset + tpdu {
      return Err(PayloadTruncated);
    }
    var tpci, apci := head.tpci, head.apciData;
    if length > 0 {
      tpci := data[offset];
      offset := offset + 1;
      apci := data[offset..offset + length];
    }
    return Ok(head.(tpci := tpci, apciData := apci));
  }

  ghost function PayloadAt(head: Frame, s: Octets, p: nat): (r: Result<Frame, CemiError>)
    requires p <= |s|
  {
    if head.dataLength == 0 then Ok(head)
    else if |s| < p + head.dataLength + 1 then Err(PayloadTruncated)
    else Ok(head.(tpci := s[p], apciData := s[p + 1..p + 1 + head.dataLength]))
  }

  lemma PayloadShift(head: Frame, data: Octets, start: nat, p: nat)
    requires start + p <= |data|
    ensures PayloadAt(head, data[start..], p) == PayloadAt(head, data, start + p)
  {
    var s := data[start..];
    if head.dataLength > 0 && |s| >= p + head.dataLength + 1 {
      assert s[p + 1..p + 1 + head.dataLength] == data[start + p + 1..start + p + 1 + head.dataLength];
    }
  }

  lemma {:induction false} InfoBytesSnoc(infos: seq<Info>, last: Info)
    ensures InfoBytes(infos + [last]) == InfoBytes(infos) + ([last.infoType, |last.data| % 256] + last.data)
  {
    if infos == [] {
      assert infos + [last] == [last] && [last][1..] == [];
      assert InfoBytes([last]) == [last.infoType, |last.data| % 256] + last.data + InfoBytes([]);
    } else {
      assert (infos + [last])[1..] == infos[1..] + [last];
      InfoBytesSnoc(infos[1..], last);
    }
  }

  lemma HeadBehind(front: Octets, f: Frame)
    ensures var start := front + [ControlHigh(f.control), ControlLow(f.control)];
            front + HeadBytes(f) ==
            (if f.extended.Some? then start + [ExtendedByte(f.extended.value)] else start)
            + U16Bytes(f.source) + U16Bytes(RawAddress(f.destination))
  {
    hide ControlHigh, ControlLow, ExtendedByte, U16Bytes, RawAddress;
  }

  lemma BodyBehind(code: byte, infoData: Octets, f: Frame)
    requires code == CodeByte(f.messageCode) && infoData == InfoBytes(f.additionalInfo)
    ensures var start := [code] + [|infoData| % 256] + infoData + HeadBytes(f) + [f.dataLength];
            FrameBytes(f) == if f.dataLength > 0 then start + [f.tpci] + f.apciData else start
  {
    hide HeadBytes, InfoBytes, CodeByte;
  }

  /** Appending field after field produces `FrameBytes`. */
  method Serialize(f: Frame) returns (out: Octets)
    ensures out == FrameBytes(f)
  {
    hide CodeByte, ControlHigh, ControlLow, ExtendedByte, U16Bytes, RawAddress, HeadBytes, FrameBytes;
    out := [CodeByte(f.messageCode)];
    var infoData := [];
    for i := 0 to |f.additionalInfo|
      invariant infoData == InfoBytes(f.additionalInfo[..i])
    {
      var info := f.additionalInfo[i];
      infoData := infoData + ([info.infoType, |info.data| % 256] + info.data);
      assert f.additionalInfo[..i + 1] == f.additionalInfo[..i] + [info];
      InfoBytesSnoc(f.additionalInfo[..i], info);
    }
    assert f.additionalInfo[..|f.additionalInfo|] == f.additionalInfo;
    hide InfoBytes;
    out := out + [|infoData| % 256];
    out := out + infoData;
    HeadBehind(out, f);
    BodyBehind(CodeByte(f.messageCode), infoData, f);
    out := out + [ControlHigh(f.control), ControlLow(f.control)];
    if f.extended.Some? {
      out := out + [ExtendedByte(f.extended.value)];
    }
    out := out + U16Bytes(f.source);
    out := out + U16Bytes(RawAddress(f.destination));
    out := out + [f.dataLength];
    if f.dataLength > 0 {
      out := out + [f.tpci];
      out := out + f.apciData;
    }
  }

  /** `CemiFrame::new`: a standard frame at normal priority; the length octet keeps the low eight bits. */
  function NewFrame(code: MessageCode, source: IndividualAddress, destination: Address, data: Octets): (f: Frame) {
    Frame(code, [],
          ControlField(Standard, false, false, Normal, false, false,
                       if destination.Group? then GroupType else IndividualType, 6),
          None, source, destination, |data| % 256, 0, data)
  }
}
