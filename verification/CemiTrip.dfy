/** cEMI parsing and serialization are inverse to each other, up to the bits the format reserves. */
module CemiTrip {
  import opened Bytes
  import opened Addresses
  import opened Cemi

  // ---- Fields ----

  lemma CodeRoundTrip(c: MessageCode)
    ensures CodeOf(CodeByte(c)) == Some(c)
  {
  }

  lemma CodeInverse(b: byte)
    requires CodeOf(b).Some?
    ensures CodeByte(CodeOf(b).value) == b
  {
  }

  /** Taking apart an octet put together from bits: `a0bcppde`. */
  lemma HighFields(h: byte, a: nat, b: nat, c: nat, p: nat, d: nat, e: nat)
    requires a <= 1 && b <= 1 && c <= 1 && p <= 3 && d <= 1 && e <= 1
    requires h == 128 * a + 32 * b + 16 * c + 4 * p + 2 * d + e
    ensures h / 0x80 == a && (h / 0x20) % 2 == b && (h / 0x10) % 2 == c
    ensures (h / 4) % 4 == p && (h / 2) % 2 == d && h % 2 == e
  {
    assert h / 0x20 == 4 * a + b;
    assert h / 0x10 == 8 * a + 2 * b + c;
    assert h / 4 == 32 * a + 8 * b + 4 * c + p;
    assert h / 2 == 64 * a + 16 * b + 8 * c + 2 * p + d;
    LowBit(2 * a, b);
    LowBit(4 * a + b, c);
    LowBits(8 * a + 2 * b + c, p);
    LowBit(32 * a + 8 * b + 4 * c + p, d);
    LowBit(64 * a + 16 * b + 8 * c + 2 * p + d, e);
  }

  lemma LowBit(q: nat, r: nat)
    requires r < 2
    ensures (2 * q + r) % 2 == r
  {
  }

  lemma LowBits(q: nat, r: nat)
    requires r < 4
    ensures (4 * q + r) % 4 == r
  {
  }

  /** A control field survives its octets; of the hop count they hold three bits. */
  lemma ControlRoundTrip(c: ControlField)
    ensures ControlOf(ControlHigh(c), ControlLow(c)) == c.(hopCount := c.hopCount % 8)
  {
    HighFields(ControlHigh(c), Flag(c.frameType == Standard, 1), Flag(!c.repeat, 1), Flag(!c.systemBroadcast, 1),
               PriorityBits(c.priority), Flag(c.ackRequest, 1), Flag(c.confirm, 1));
    LowFields(ControlLow(c), Flag(c.destinationType == GroupType, 1), c.hopCount % 8, 0);
  }

  /** An octet of one bit, three bits and four bits. */
  lemma LowFields(l: byte, t: nat, hop: nat, format: nat)
    requires t <= 1 && hop < 8 && format < 16 && l == 128 * t + 16 * hop + format
    ensures l / 0x80 == t && (l / 16) % 8 == hop && l % 16 == format
  {
    assert l / 16 == 8 * t + hop;
  }

  lemma ExtendedRoundTrip(e: ExtendedControl)
    ensures ExtendedOf(ExtendedByte(e)) == e.(hopCount := e.hopCount % 8, format := e.format % 16)
  {
    LowFields(ExtendedByte(e), Flag(e.destinationType == GroupType, 1), e.hopCount % 8, e.format % 16);
  }

  /** Writing parsed control octets back clears bit 6 of the first and the low half of the second. */
  lemma ControlBack(high: byte, low: byte)
    ensures ControlHigh(ControlOf(high, low)) == high - Flag(Bit(high, 0x40), 0x40)
    ensures ControlLow(ControlOf(high, low)) == low - low % 16
  {
    HighSum(high);
    LowSum(low);
    FlagBit(high, 128);
    FlagBit(high, 64);
    FlagBit(high, 32);
    FlagBit(high, 16);
    FlagBit(high, 2);
    FlagBit(high, 1);
    FlagBit(low, 128);
    PriorityBack((high / 4) % 4);
    hide Bit, Flag, PriorityOf, PriorityBits;
  }

  lemma FlagBit(b: byte, weight: nat)
    requires weight > 0
    ensures Flag(Bit(b, weight), weight) == weight * ((b / weight) % 2)
  {
  }

  lemma PriorityBack(n: nat)
    requires n < 4
    ensures PriorityBits(PriorityOf(n)) == n
  {
  }

  lemma HighSum(h: byte)
    ensures h == 128 * ((h / 128) % 2) + 64 * ((h / 64) % 2) + 32 * ((h / 32) % 2) + 16 * ((h / 16) % 2)
                 + 4 * ((h / 4) % 4) + 2 * ((h / 2) % 2) + h % 2
  {
    assert h / 4 == (h / 2) / 2 && h / 16 == (h / 4) / 4 && h / 32 == (h / 16) / 2;
    assert h / 64 == (h / 32) / 2 && h / 128 == (h / 64) / 2 && h / 128 < 2;
  }

  lemma LowSum(l: byte)
    ensures l == 128 * ((l / 128) % 2) + 16 * ((l / 16) % 8) + l % 16
  {
    assert l / 128 == (l / 16) / 8 && l / 128 < 2;
  }

  lemma ExtendedBack(b: byte)
    ensures ExtendedByte(ExtendedOf(b)) == b
    ensures ExtendedOf(b).hopCount < 8 && ExtendedOf(b).format < 16
  {
    LowSum(b);
  }

  // ---- Additional information ----

  lemma {:induction false} InfosRoundTrip(before: Octets, infos: seq<Info>, after: Octets)
    requires forall i :: 0 <= i < |infos| ==> |infos[i].data| <= 255
    ensures var data := before + InfoBytes(infos) + after;
            Infos(data, |before|, |before| + |InfoBytes(infos)|) == Ok(infos)
    decreases |infos|
  {
    hide Infos, InfoBytes, InfoHead;
    var data, end := before + InfoBytes(infos) + after, |before| + |InfoBytes(infos)|;
    if infos == [] {
      NoInfos(data, |before|);
    } else {
      var head, rest := InfoHead(infos[0]), InfoBytes(infos[1..]);
      InfoBytesStep(infos);
      InfosRoundTrip(before + head, infos[1..], after);
      InfoFront(before, infos[0], rest, after);
      InfosStep(data, |before|, end);
      assert infos == [infos[0]] + infos[1..];
    }
  }

  lemma NoInfos(data: Octets, offset: nat)
    requires offset <= |data|
    ensures InfoBytes([]) == [] && Infos(data, offset, offset) == Ok([])
  {
  }

  lemma InfoBytesStep(infos: seq<Info>)
    requires infos != []
    ensures InfoBytes(infos) == InfoHead(infos[0]) + InfoBytes(infos[1..])
  {
  }

  lemma InfosStep(data: Octets, offset: nat, end: nat)
    requires end <= |data| && offset + 1 < end
    requires var next := offset + 2 + data[offset + 1]; next <= end && Infos(data, next, end).Ok?
    ensures var next := offset + 2 + data[offset + 1];
            Infos(data, offset, end) == Ok([Info(data[offset], data[offset + 2..next])] + Infos(data, next, end).value)
  {
  }

  ghost function InfoHead(info: Info): (r: Octets)
    ensures |r| == 2 + |info.data|
  {
    [info.infoType, |info.data| % 256] + info.data
  }

  lemma InfoFront(before: Octets, info: Info, rest: Octets, after: Octets)
    requires |info.data| <= 255
    ensures var data := before + (InfoHead(info) + rest) + after;
            && data == (before + InfoHead(info)) + rest + after
            && data[|before|] == info.infoType && data[|before| + 1] == |info.data|
            && data[|before| + 2..|before| + 2 + |info.data|] == info.data
  {
  }

  lemma {:induction false} InfosInverse(data: Octets, offset: nat, end: nat)
    requires offset <= end <= |data| && Infos(data, offset, end).Ok?
    ensures var infos := Infos(data, offset, end).value;
            && InfoBytes(infos) == data[offset..end]
            && forall i :: 0 <= i < |infos| ==> |infos[i].data| <= 255
    decreases end - offset
  {
    if offset < end {
      var next := offset + 2 + data[offset + 1];
      InfosInverse(data, next, end);
      var rest := Infos(data, next, end).value;
      var infos := Infos(data, offset, end).value;
      var first := Info(data[offset], data[offset + 2..next]);
      assert infos[0] == first && infos[1..] == rest;
      assert data[offset..end] == [data[offset], data[offset + 1]] + data[offset + 2..next] + data[next..end];
    }
  }

  // ---- The part behind the additional information ----

  /** Where source, destination and length stand in a serialized body. */
  ghost function Skip(f: Frame): (p: nat) { if f.extended.Some? then 3 else 2 }

  lemma BodyLayout(f: Frame, extra: Octets)
    ensures var s, p := BodyBytes(f) + extra, Skip(f);
            && |s| >= p + 5
            && s[0] == ControlHigh(f.control) && s[1] == ControlLow(f.control)
            && (f.extended.Some? ==> s[2] == ExtendedByte(f.extended.value))
            && U16From(s[p], s[p + 1]) == f.source
            && U16From(s[p + 2], s[p + 3]) == RawAddress(f.destination)
            && s[p + 4] == f.dataLength
            && |BodyBytes(f)| == p + 5 + (if f.dataLength > 0 then 1 + |f.apciData| else 0)
            && (f.dataLength > 0 ==> s[p + 5] == f.tpci && s[p + 6..p + 6 + |f.apciData|] == f.apciData)
  {
    hide HeadBytes, ControlHigh, ControlLow, ExtendedByte, U16From, RawAddress;
    HeadLayout(f);
    var tail := if f.dataLength > 0 then [f.tpci] + f.apciData else [];
    BehindHead(HeadBytes(f), f.dataLength, tail, extra);
    if f.dataLength > 0 {
      DataBehind(f.tpci, f.apciData, extra);
    }
  }

  lemma HeadLayout(f: Frame)
    ensures var head, p := HeadBytes(f), Skip(f);
            && |head| == p + 4
            && head[0] == ControlHigh(f.control) && head[1] == ControlLow(f.control)
            && (f.extended.Some? ==> head[2] == ExtendedByte(f.extended.value))
            && U16From(head[p], head[p + 1]) == f.source
            && U16From(head[p + 2], head[p + 3]) == RawAddress(f.destination)
  {
    U16RoundTrip(f.source);
    U16RoundTrip(RawAddress(f.destination));
    hide ControlHigh, ControlLow, ExtendedByte, U16Bytes, RawAddress, U16From;
    var head, p := HeadBytes(f), Skip(f);
    var a, b := U16Bytes(f.source), U16Bytes(RawAddress(f.destination));
    assert |head| == p + 4 && head[p] == a[0] && head[p + 1] == a[1] && head[p + 2] == b[0] && head[p + 3] == b[1];
  }

  lemma BehindHead(head: Octets, length: byte, tail: Octets, extra: Octets)
    ensures var s, n := head + [length] + tail + extra, |head|;
            && (forall i :: 0 <= i < n ==> s[i] == head[i])
            && s[n] == length && s[n + 1..] == tail + extra
  {
  }

  lemma DataBehind(tpci: byte, data: Octets, extra: Octets)
    ensures var s := [tpci] + data + extra; s[0] == tpci && s[1..1 + |data|] == data
  {
  }

  lemma DestinationRoundTrip(a: Address, t: AddressType)
    requires MatchesType(a, t)
    ensures DestinationOf(t, RawAddress(a)) == Ok(a)
  {
  }

  /** A well-formed frame's body is read back, and what follows it in the buffer is left alone. */
  lemma BodyRoundTrip(f: Frame, extra: Octets)
    requires WellFormed(f)
    ensures ParseBody(f.messageCode, f.additionalInfo, BodyBytes(f) + extra) == Ok(Parsed(f, |BodyBytes(f)|))
  {
    hide ControlOf, ControlHigh, ControlLow, ExtendedOf, ExtendedByte, DestinationOf, RawAddress, BodyBytes, U16From;
    hide InfoBytes, ControlAndExtension;
    DestinationRoundTrip(f.destination, f.control.destinationType);
    BodyLayout(f, extra);
    ControlsReadBack(f, BodyBytes(f) + extra);
  }

  lemma ControlsReadBack(f: Frame, s: Octets)
    requires WellFormed(f) && |s| >= 3 && s[0] == ControlHigh(f.control) && s[1] == ControlLow(f.control)
    requires f.extended.Some? ==> s[2] == ExtendedByte(f.extended.value)
    ensures ControlAndExtension(s) == (f.control, f.extended)
  {
    hide ControlOf, ControlHigh, ControlLow, ExtendedOf, ExtendedByte, InfoBytes;
    ControlRoundTrip(f.control);
    if f.extended.Some? {
      ExtendedRoundTrip(f.extended.value);
    }
  }

  lemma FrameReadBack(f: Frame, extra: Octets)
    requires WellFormed(f)
    ensures ParseFrame(FrameBytes(f) + extra) == Ok(Parsed(f, |FrameBytes(f)|))
  {
    hide CodeOf, CodeByte, InfoBytes, Infos, BodyBytes, ParseBody;
    CodeRoundTrip(f.messageCode);
    BodyRoundTrip(f, extra);
    var info, rest := InfoBytes(f.additionalInfo), BodyBytes(f) + extra;
    var front := [CodeByte(f.messageCode), |info|];
    InfosRoundTrip(front, f.additionalInfo, rest);
    FrontOfFrame(front, info, BodyBytes(f), extra);
    hide WellFormed;
  }

  /**
    * The codec theorem: a frame, standard or extended, with any additional information, is read back from its octets,
    * also when more octets follow, if and only if it is well-formed.
    */
  lemma FrameRoundTrip(f: Frame, extra: Octets)
    ensures ParseFrame(FrameBytes(f) + extra) == Ok(Parsed(f, |FrameBytes(f)|)) <==> WellFormed(f)
  {
    hide ParseFrame, FrameBytes, WellFormed;
    if WellFormed(f) {
      FrameReadBack(f, extra);
    } else if ParseFrame(FrameBytes(f) + extra).Ok? {
      ParsedIsWellFormed(FrameBytes(f) + extra);
    }
  }

  lemma FrameSize(f: Frame)
    requires WellFormed(f)
    ensures |FrameBytes(f)| <= 1_000
  {
    hide InfoBytes;
  }

  lemma DataFits(f: Frame)
    requires WellFormed(f)
    ensures |f.apciData| <= 255
  {
  }

  lemma FrontOfFrame(front: Octets, info: Octets, body: Octets, extra: Octets)
    requires |front| == 2
    ensures var data := front + info + body + extra;
            && data == front + info + (body + extra)
            && data[0] == front[0] && data[1] == front[1] && data[2 + |info|..] == body + extra
  {
  }

  // ---- From octets to frames and back ----

  lemma BodyWellFormed(code: MessageCode, infos: seq<Info>, s: Octets)
    requires ParseBody(code, infos, s).Ok?
    requires |InfoBytes(infos)| <= 255 && forall i :: 0 <= i < |infos| ==> |infos[i].data| <= 255
    ensures WellFormed(ParseBody(code, infos, s).value.frame)
  {
    ControlsFit(s);
    hide InfoBytes, ControlAndExtension, U16From, DestinationOf;
    forall kind, raw ensures DestinationFits(kind, raw) {
      DestinationMatches(kind, raw);
    }
  }

  predicate DestinationFits(kind: AddressType, raw: u16) {
    var a := DestinationOf(kind, raw);
    a.Ok? ==> MatchesType(a.value, kind)
  }

  lemma DestinationMatches(kind: AddressType, raw: u16)
    ensures DestinationFits(kind, raw)
  {
  }

  lemma ControlsFit(s: Octets)
    requires |s| >= 3
    ensures var (control, extended) := ControlAndExtension(s);
            && control.hopCount < 8
            && (control.frameType == Extended <==> extended.Some?)
            && (extended.Some? ==>
                  && extended.value.format < 16
                  && extended.value.destinationType == control.destinationType
                  && extended.value.hopCount == control.hopCount)
  {
    ExtendedBack(s[2]);
    hide ExtendedOf;
  }

  /** Whatever the parser accepts is well formed. */
  lemma ParsedIsWellFormed(data: Octets)
    requires ParseFrame(data).Ok?
    ensures WellFormed(ParseFrame(data).value.frame)
  {
    var end := data[1] as int + 2;
    InfosInverse(data, 2, end);
    BodyWellFormed(CodeOf(data[0]).value, Infos(data, 2, end).value, data[end..]);
    hide WellFormed, ParseBody, Infos;
  }

  /** The control octets a frame is written back with. */
  ghost function CanonicalHigh(high: byte): (b: byte) { high - Flag(Bit(high, 0x40), 0x40) }

  ghost function CanonicalLow(s: Octets): (b: byte)
    requires |s| >= 3
  {
    if Bit(s[0], 0x80) then s[1] - s[1] % 16 else s[2] - s[2] % 16
  }

  lemma HeadBack(code: MessageCode, infos: seq<Info>, s: Octets)
    requires ParseBody(code, infos, s).Ok?
    ensures var r := ParseBody(code, infos, s).value;
            var p := Skip(r.frame);
            && p + 4 < r.used <= |s|
            && HeadBytes(r.frame) == [CanonicalHigh(s[0]), CanonicalLow(s)] + s[2..p + 4]
  {
    var r := ParseBody(code, infos, s).value;
    var f, p := r.frame, Skip(r.frame);
    hide ControlHigh, ControlLow, ControlOf, ExtendedByte, ExtendedOf, U16From, U16Bytes, RawAddress, DestinationOf;
    hide CanonicalHigh, CanonicalLow;
    ControlOctetsBack(s);
    DestinationBack(f.control.destinationType, U16From(s[p + 2], s[p + 3]));
    U16Back(s[p], s[p + 1]);
    U16Back(s[p + 2], s[p + 3]);
    assert U16Bytes(f.source) == [s[p], s[p + 1]] && U16Bytes(RawAddress(f.destination)) == [s[p + 2], s[p + 3]];
    AddressesBehind(s, p);
  }

  lemma AddressesBehind(s: Octets, p: nat)
    requires 2 <= p && p + 4 <= |s|
    ensures s[2..p + 4] == s[2..p] + [s[p], s[p + 1]] + [s[p + 2], s[p + 3]]
  {
  }

  lemma BodyBack(code: MessageCode, infos: seq<Info>, s: Octets)
    requires ParseBody(code, infos, s).Ok?
    ensures var r := ParseBody(code, infos, s).value;
            && 7 <= r.used <= |s|
            && BodyBytes(r.frame) == [CanonicalHigh(s[0]), CanonicalLow(s)] + s[2..r.used]
  {
    hide ParseBody, HeadBytes, CanonicalHigh, CanonicalLow;
    var r := ParseBody(code, infos, s).value;
    var f, p := r.frame, Skip(r.frame);
    HeadBack(code, infos, s);
    TailFields(code, infos, s);
    var head := [CanonicalHigh(s[0]), CanonicalLow(s)];
    if f.dataLength == 0 {
      assert s[2..r.used] == s[2..p + 4] + [f.dataLength];
    } else {
      SplitTail(s, p + 4, r.used);
      assert BodyBytes(f) == head + (s[2..p + 4] + [f.dataLength] + [f.tpci] + f.apciData);
    }
  }

  lemma TailFields(code: MessageCode, infos: seq<Info>, s: Octets)
    requires ParseBody(code, infos, s).Ok?
    ensures var r := ParseBody(code, infos, s).value;
            var f, p := r.frame, Skip(r.frame);
            && r.used <= |s| && p + 4 < |s| && f.dataLength == s[p + 4]
            && (f.dataLength == 0 ==> r.used == p + 5)
            && (f.dataLength > 0 ==> p + 6 <= r.used && f.tpci == s[p + 5] && f.apciData == s[p + 6..r.used])
  {
    hide ControlOf, ExtendedOf, U16From, DestinationOf;
  }

  lemma SplitTail(s: Octets, q: nat, used: nat)
    requires 2 <= q && q + 2 <= used <= |s|
    ensures s[2..used] == s[2..q] + [s[q]] + [s[q + 1]] + s[q + 2..used]
  {
  }

  lemma DestinationBack(t: AddressType, raw: u16)
    requires DestinationOf(t, raw).Ok?
    ensures RawAddress(DestinationOf(t, raw).value) == raw
  {
  }

  lemma ControlOctetsBack(s: Octets)
    requires |s| >= 3
    ensures var (control, extended) := ControlAndExtension(s);
            && ControlHigh(control) == CanonicalHigh(s[0]) && ControlLow(control) == CanonicalLow(s)
            && (extended.Some? ==> ExtendedByte(extended.value) == s[2])
  {
    ControlBack(s[0], s[1]);
    if !Bit(s[0], 0x80) {
      ControlBack(s[0], s[2]);
      ExtendedBack(s[2]);
    }
  }

  /** The accepted octets with the reserved bits of the two control octets normalized. */
  ghost function Canonical(data: Octets, used: nat): (r: Octets)
    requires |data| >= 2 && data[1] as int + 9 <= used <= |data|
  {
    var c := data[1] as int + 2;
    data[..c] + [CanonicalHigh(data[c]), CanonicalLow(data[c..])] + data[c + 2..used]
  }

  /**
    * Serializing what was parsed reproduces the octets that were used, except for bit 6 of the first control
    * octet and the low half of the second (all of it but the parsed fields in an extended frame).
    */
  lemma FrameBack(data: Octets, f: Frame, used: nat)
    requires ParseFrame(data) == Ok(Parsed(f, used))
    ensures |data| >= 2 && data[1] as int + 9 <= used <= |data|
    ensures FrameBytes(f) == Canonical(data, used)
  {
    hide InfoBytes, Infos, BodyBytes, ParseBody, CodeOf, CodeByte, CanonicalHigh, CanonicalLow;
    var code, c := CodeOf(data[0]).value, data[1] as int + 2;
    var infos := Infos(data, 2, c).value;
    CodeInverse(data[0]);
    InfosInverse(data, 2, c);
    BodyBack(code, infos, data[c..]);
    SameInfos(code, infos, data[c..]);
    assert |InfoBytes(infos)| == data[1];
    assert data[..c] == [data[0], data[1]] + data[2..c];
    assert data[c..][2..used - c] == data[c + 2..used];
  }

  lemma SameInfos(code: MessageCode, infos: seq<Info>, s: Octets)
    requires ParseBody(code, infos, s).Ok?
    ensures var f := ParseBody(code, infos, s).value.frame; f.messageCode == code && f.additionalInfo == infos
  {
  }

  /** Parsing is stable: a frame that was parsed is parsed again from its own octets. */
  lemma ParseSerializeParse(data: Octets)
    requires ParseFrame(data).Ok?
    ensures var f := ParseFrame(data).value.frame;
            ParseFrame(FrameBytes(f)) == Ok(Parsed(f, |FrameBytes(f)|))
  {
    hide ParseFrame, FrameBytes, WellFormed;
    ParsedIsWellFormed(data);
    var f := ParseFrame(data).value.frame;
    FrameRoundTrip(f, []);
    assert FrameBytes(f) + [] == FrameBytes(f);
  }

  // ---- Exactly the accepted octets ----

  lemma CanonicalControls(s: Octets, t: Octets)
    requires |s| == |t| >= 3 && t == [CanonicalHigh(s[0]), CanonicalLow(s)] + s[2..]
    ensures ControlAndExtension(t) == ControlAndExtension(s)
  {
    ControlOctetsBack(s);
    ControlsFit(s);
    var control := ControlAndExtension(s).0;
    ControlRoundTrip(control);
    hide ControlHigh, ControlLow, CanonicalHigh, CanonicalLow, ExtendedByte;
    assert t[2] == s[2];
    assert ControlOf(t[0], t[1]) == control;
    assert (ControlOf(s[0], s[1]).frameType == Extended) == (control.frameType == Extended);
    hide ControlOf, ExtendedOf;
  }

  lemma CanonicalBody(code: MessageCode, infos: seq<Info>, s: Octets, t: Octets)
    requires |s| == |t| >= 3 && t == [CanonicalHigh(s[0]), CanonicalLow(s)] + s[2..]
    ensures ParseBody(code, infos, t) == ParseBody(code, infos, s)
  {
    CanonicalControls(s, t);
    SameBehind(s, t);
    hide CanonicalHigh, CanonicalLow;
    SameBody(code, infos, s, t);
  }

  lemma SameBehind(s: Octets, t: Octets)
    requires |s| == |t| >= 3 && t == [t[0], t[1]] + s[2..]
    ensures forall i :: 2 <= i < |s| ==> t[i] == s[i]
  {
  }

  lemma SameBody(code: MessageCode, infos: seq<Info>, s: Octets, t: Octets)
    requires |s| == |t| >= 3 && ControlAndExtension(t) == ControlAndExtension(s)
    requires forall i :: 2 <= i < |s| ==> t[i] == s[i]
    ensures ParseBody(code, infos, t) == ParseBody(code, infos, s)
  {
    hide ControlAndExtension, DestinationOf, U16From;
    if |s| >= 7 {
      var p := if ControlAndExtension(s).1.Some? then 3 else 2;
      if p + 4 < |s| && p + 6 + s[p + 4] <= |s| {
        assert t[p + 6..p + 6 + s[p + 4]] == s[p + 6..p + 6 + s[p + 4]];
      }
    }
  }

  lemma {:induction false} SameInfoFields(data: Octets, other: Octets, offset: nat, end: nat)
    requires |data| == |other| && end <= |data| && data[..end] == other[..end]
    ensures Infos(data, offset, end) == Infos(other, offset, end)
    decreases end - offset
  {
    if offset + 1 < end {
      SameFront(data, other, offset, end);
      var next := offset + 2 + data[offset + 1];
      if next <= end {
        SameInfoFields(data, other, next, end);
      }
    }
  }

  lemma SameFront(data: Octets, other: Octets, offset: nat, end: nat)
    requires |data| == |other| && offset + 1 < end <= |data| && data[..end] == other[..end]
    ensures data[offset] == other[offset] && data[offset + 1] == other[offset + 1]
    ensures var next := offset + 2 + data[offset + 1];
            next <= end ==> data[offset + 2..next] == other[offset + 2..next]
  {
    assert forall i :: 0 <= i < end ==> data[i] == data[..end][i] && other[i] == other[..end][i];
  }

  /** The octets with the reserved bits of their control octets normalized. */
  ghost function Normalized(data: Octets): (r: Octets)
    requires |data| >= 2 && data[1] as int + 5 <= |data|
    ensures |r| == |data|
  {
    var c := data[1] as int + 2;
    data[..c] + [CanonicalHigh(data[c]), CanonicalLow(data[c..])] + data[c + 2..]
  }

  /** The parser does not look at the reserved bits, not even to refuse: the same frame or the same error. */
  lemma ReservedBitsIgnored(data: Octets)
    requires |data| >= 2 && data[1] as int + 5 <= |data|
    ensures ParseFrame(Normalized(data)) == ParseFrame(data)
  {
    hide Infos, ParseBody, CodeOf, CanonicalHigh, CanonicalLow;
    var c := data[1] as int + 2;
    var t := Normalized(data);
    NormalizedParts(data);
    SameInfoFields(data, t, 2, c);
    var infos, code := Infos(data, 2, c), CodeOf(data[0]);
    if infos.Ok? && code.Some? {
      CanonicalBody(code.value, infos.value, data[c..], t[c..]);
    }
  }

  lemma NormalizedParts(data: Octets)
    requires |data| >= 2 && data[1] as int + 5 <= |data|
    ensures var c, t := data[1] as int + 2, Normalized(data);
            && t[0] == data[0] && t[1] == data[1] && t[..c] == data[..c]
            && t[c..] == [CanonicalHigh(data[c..][0]), CanonicalLow(data[c..])] + data[c..][2..]
  {
    hide CanonicalHigh, CanonicalLow;
  }

  /**
    * Every octet string: it is read as a certain frame if and only if that frame is well-formed and the string, with
    * its reserved bits normalized, begins with the frame's octets.
    */
  lemma AcceptedExactly(data: Octets, f: Frame)
    ensures ParseFrame(data) == Ok(Parsed(f, |FrameBytes(f)|)) <==>
            && |data| >= 2 && data[1] as int + 5 <= |data|
            && WellFormed(f) && FrameBytes(f) <= Normalized(data)
  {
    hide ParseFrame, FrameBytes, WellFormed, Normalized, Canonical;
    if ParseFrame(data) == Ok(Parsed(f, |FrameBytes(f)|)) {
      ParsedIsWellFormed(data);
      FrameBack(data, f, |FrameBytes(f)|);
      CanonicalIsFront(data, |FrameBytes(f)|);
    }
    if && |data| >= 2 && data[1] as int + 5 <= |data|
       && WellFormed(f) && FrameBytes(f) <= Normalized(data) {
      ReservedBitsIgnored(data);
      var rest := Normalized(data)[|FrameBytes(f)|..];
      assert Normalized(data) == FrameBytes(f) + rest;
      FrameReadBack(f, rest);
    }
  }

  lemma CanonicalIsFront(data: Octets, used: nat)
    requires |data| >= 2 && data[1] as int + 9 <= used <= |data|
    ensures Canonical(data, used) == Normalized(data)[..used]
  {
    hide CanonicalHigh, CanonicalLow;
  }

  // ---- Refusals ----

  lemma KnownCode(b: byte)
    ensures CodeOf(b).Some? <==> exists c :: CodeByte(c) == b
  {
    hide CodeOf, CodeByte;
    if CodeOf(b).Some? {
      CodeInverse(b);
    }
    if c :| CodeByte(c) == b {
      CodeRoundTrip(c);
    }
  }

  /** The octets are those of a list of additional-info fields. */
  ghost predicate AreInfos(region: Octets) {
    exists infos: seq<Info> :: Short(infos) && InfoBytes(infos) == region
  }

  ghost predicate Short(infos: seq<Info>) {
    forall i :: 0 <= i < |infos| ==> |infos[i].data| <= 255
  }

  /** Additional info is accepted exactly when its region is filled by whole fields. */
  lemma InfosExactly(data: Octets, end: nat)
    requires 2 <= end <= |data|
    ensures Infos(data, 2, end).Ok? <==> AreInfos(data[2..end])
    ensures var r := Infos(data, 2, end); r.Err? ==> r.error == InfoIncomplete || r.error == InfoOverrun
  {
    hide Infos, InfoBytes, Short;
    InfoErrors(data, 2, end);
    if Infos(data, 2, end).Ok? {
      InfosAreShort(data, end);
    }
    if AreInfos(data[2..end]) {
      var infos: seq<Info> :| Short(infos) && InfoBytes(infos) == data[2..end];
      ShortInfosRead(data, infos, end);
    }
  }

  lemma InfosAreShort(data: Octets, end: nat)
    requires 2 <= end <= |data| && Infos(data, 2, end).Ok?
    ensures var infos := Infos(data, 2, end).value; Short(infos) && InfoBytes(infos) == data[2..end]
  {
    hide Infos, InfoBytes;
    InfosInverse(data, 2, end);
  }

  lemma ShortInfosRead(data: Octets, infos: seq<Info>, end: nat)
    requires 2 <= end <= |data| && Short(infos) && InfoBytes(infos) == data[2..end]
    ensures Infos(data, 2, end).Ok?
  {
    hide Infos, InfoBytes;
    InfosRoundTrip(data[..2], infos, data[end..]);
    Rejoin(data, end);
  }

  lemma Rejoin(data: Octets, end: nat)
    requires 2 <= end <= |data|
    ensures data[..2] + data[2..end] + data[end..] == data
  {
  }

  lemma {:induction false} InfoErrors(data: Octets, offset: nat, end: nat)
    requires end <= |data|
    ensures var r := Infos(data, offset, end); r.Err? ==> r.error == InfoIncomplete || r.error == InfoOverrun
    decreases end - offset
  {
    if offset < end && offset + 1 < |data| && offset + 2 + data[offset + 1] <= end {
      InfoErrors(data, offset + 2 + data[offset + 1], end);
    }
  }

  /** Which refusal an octet string draws before its control octets are looked at. */
  lemma FrontRefusals(data: Octets)
    ensures var r := ParseFrame(data);
            var long := |data| >= 2;
            var known := long && exists c :: CodeByte(c) == data[0];
            var whole := known && data[1] as int + 2 <= |data|;
            var filled := whole && AreInfos(data[2..data[1] as int + 2]);
            && (r == Err(TooShort) <==> !long)
            && (r == Err(UnknownMessageCode) <==> long && !known)
            && (r == Err(InfoTruncated) <==> known && !whole)
            && (r == Err(InfoIncomplete) || r == Err(InfoOverrun) <==> whole && !filled)
            && (r == Err(HeaderTruncated) <==> filled && |data| < data[1] as int + 9)
  {
    if |data| >= 2 {
      KnownCode(data[0]);
      var end := data[1] as int + 2;
      if end <= |data| {
        InfosExactly(data, end);
        if CodeOf(data[0]).Some? && Infos(data, 2, end).Ok? {
          BodyRefusals(CodeOf(data[0]).value, Infos(data, 2, end).value, data[end..]);
        }
      }
    }
    hide CodeOf, CodeByte, Infos, ParseBody, AreInfos;
  }

  /** And from there on: seven octets, a 15-bit group address, a length octet, and as many octets as it announces. */
  lemma BodyRefusals(code: MessageCode, infos: seq<Info>, s: Octets)
    ensures var r := ParseBody(code, infos, s);
            && (r == Err(HeaderTruncated) <==> |s| < 7)
            && (r.Err? ==> r.error.HeaderTruncated? || r.error.InvalidGroupAddress? || r.error.LengthMissing?
                           || r.error.PayloadTruncated?)
            && (|s| >= 7 ==>
                  var extended := !Bit(s[0], 0x80);
                  var p := if extended then 3 else 2;
                  var group := Bit(if extended then s[2] else s[1], 0x80);
                  var bad := group && s[p + 2] >= 0x80;
                  && (r == Err(InvalidGroupAddress) <==> bad)
                  && (r == Err(LengthMissing) <==> !bad && |s| == 7 && extended)
                  && (r == Err(PayloadTruncated) <==>
                      !bad && p + 4 < |s| && s[p + 4] > 0 && |s| < p + 6 + s[p + 4]))
  {
    if |s| >= 7 {
      ControlBits(s);
    }
    hide ControlAndExtension, Bit;
  }

  lemma ControlBits(s: Octets)
    requires |s| >= 3
    ensures var (control, extended) := ControlAndExtension(s);
            && (extended.Some? <==> !Bit(s[0], 0x80))
            && (control.destinationType == GroupType <==> Bit(if extended.Some? then s[2] else s[1], 0x80))
  {
    hide Bit;
  }
}
