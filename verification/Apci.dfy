/** Group value services in the APCI octets. */
module Apci {
  import opened Bytes

  datatype Service = Read | Response(payload: Octets) | Write(payload: Octets)

  /** Up to one octet shares the service octet, six bits of it; longer payloads follow it. */
  function EncodePayload(serviceBits: byte, payload: Octets): (r: Octets)
    requires serviceBits == 0x40 || serviceBits == 0x80
  {
    if |payload| <= 1 then [serviceBits + (if payload == [] then 0 else payload[0] % 64)]
    else [serviceBits] + payload
  }

  function Encode(s: Service): (r: Octets) {
    match s
    case Read => [0x00]
    case Response(payload) => EncodePayload(0x40, payload)
    case Write(payload) => EncodePayload(0x80, payload)
  }

  function DecodePayload(apci: Octets): (r: Octets)
    requires |apci| > 0
  {
    if |apci| == 1 then [apci[0] % 64] else apci[1..]
  }

  /** `None` for a missing APCI octet or another service. */
  function Decode(tpci: byte, apci: Octets): (r: Option<Service>) {
    if apci == [] then None
    else
      var service := (tpci % 4) * 256 + (apci[0] / 64) * 64;
      match service
      case 0x0000 => Some(Read)
      case 0x0040 => Some(Response(DecodePayload(apci)))
      case 0x0080 => Some(Write(DecodePayload(apci)))
      case _ => None
  }

  /** A payload the service octets can carry: one octet of six bits, or at least two octets. */
  predicate Encodable(payload: Octets) {
    if |payload| == 1 then payload[0] < 64 else |payload| >= 2
  }

  /** A service survives encoding exactly when its payload is encodable; it always stays the same service. */
  lemma ServiceRoundTrip(payload: Octets)
    ensures Decode(0, Encode(Read)) == Some(Read)
    ensures var w := Decode(0, Encode(Write(payload)));
            w.Some? && w.value.Write? && (w.value.payload == payload <==> Encodable(payload))
    ensures var r := Decode(0, Encode(Response(payload)));
            r.Some? && r.value.Response? && (r.value.payload == payload <==> Encodable(payload))
  {
    if |payload| >= 2 {
      assert Encode(Write(payload))[1..] == payload;
      assert Encode(Response(payload))[1..] == payload;
    }
  }
}
