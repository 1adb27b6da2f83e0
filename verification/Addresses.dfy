/** Group and individual addresses: packed 16-bit values and their dotted or slashed notation. */
module Addresses {
  import opened Bytes
  import opened Text

  /** A validated group address: 4-bit main, 3-bit middle and 8-bit sub group. */
  type GroupAddress = a: int | 0 <= a <= 0x7FFF

  type IndividualAddress = u16

  datatype Address = Group(group: GroupAddress) | Individual(individual: IndividualAddress)

  function TryFromRaw(raw: u16): (r: Option<GroupAddress>) {
    if raw > 0x7FFF then None else Some(raw)
  }

  function PackGroup(main: byte, middle: byte, sub: byte): (r: Option<GroupAddress>) {
    if main > 15 || middle > 7 then None else Some(main * 2048 + middle * 256 + sub)
  }

  function PackIndividual(area: byte, line: byte, device: byte): (r: Option<IndividualAddress>) {
    if area > 15 || line > 15 then None else Some(area * 4096 + line * 256 + device)
  }

  /** Three decimal numbers joined by a separator. */
  function Joined(a: byte, b: byte, c: byte, sep: char): (s: string)
    ensures forall d :: d in s ==> IsDigit(d) || d == sep
  {
    Decimal(a) + [sep] + Decimal(b) + [sep] + Decimal(c)
  }

  function ParseJoined(s: string, sep: char): (r: Option<(byte, byte, byte)>) {
    var parts := Split(s, sep);
    if |parts| != 3 then None
    else
      var a, b, c := ParseU8(parts[0]), ParseU8(parts[1]), ParseU8(parts[2]);
      if a.None? || b.None? || c.None? then None else Some((a.value, b.value, c.value))
  }

  lemma ParseJoinedInverts(a: byte, b: byte, c: byte, sep: char)
    requires !IsDigit(sep)
    ensures ParseJoined(Joined(a, b, c, sep), sep) == Some((a, b, c))
  {
    var x, y, z := Decimal(a), Decimal(b), Decimal(c);
    assert Joined(a, b, c, sep) == x + [sep] + (y + [sep] + z);
    SplitFirst(x, sep, y + [sep] + z);
    SplitFirst(y, sep, z);
    SplitNone(z, sep);
    assert Split(Joined(a, b, c, sep), sep) == [x, y, z];
    ParseDecimal(a);
    ParseDecimal(b);
    ParseDecimal(c);
  }

  function GroupText(a: GroupAddress): (s: string) {
    Joined((a / 2048) % 16, (a / 256) % 8, a % 256, '/')
  }

  function ParseGroup(s: string): (r: Option<GroupAddress>) {
    var parts := ParseJoined(s, '/');
    if parts.None? then None else PackGroup(parts.value.0, parts.value.1, parts.value.2)
  }

  function IndividualText(a: IndividualAddress): (s: string) {
    Joined((a / 4096) % 16, (a / 256) % 16, a % 256, '.')
  }

  function ParseIndividual(s: string): (r: Option<IndividualAddress>) {
    var parts := ParseJoined(s, '.');
    if parts.None? then None else PackIndividual(parts.value.0, parts.value.1, parts.value.2)
  }

  /** Taking a packed address apart and packing it again. */
  lemma GroupParts(a: GroupAddress)
    ensures PackGroup((a / 2048) % 16, (a / 256) % 8, a % 256) == Some(a)
  {
    var h := a / 256;
    var main, middle := h / 8, h % 8;
    assert a == 2048 * main + (256 * middle + a % 256);
    assert a / 2048 == main;
  }

  lemma IndividualParts(a: IndividualAddress)
    ensures PackIndividual((a / 4096) % 16, (a / 256) % 16, a % 256) == Some(a)
  {
    var h := a / 256;
    var area, line := h / 16, h % 16;
    assert a == 4096 * area + (256 * line + a % 256);
    assert a / 4096 == area;
  }

  /** Printing an address and parsing it back yields the same address; the text is digits and separators only. */
  lemma GroupTextRoundTrip(a: GroupAddress)
    ensures ParseGroup(GroupText(a)) == Some(a)
    ensures forall c :: c in GroupText(a) ==> IsDigit(c) || c == '/'
  {
    ParseJoinedInverts((a / 2048) % 16, (a / 256) % 8, a % 256, '/');
    GroupParts(a);
    hide PackGroup, Joined, ParseJoined;
  }

  lemma IndividualTextRoundTrip(a: IndividualAddress)
    ensures ParseIndividual(IndividualText(a)) == Some(a)
    ensures forall c :: c in IndividualText(a) ==> IsDigit(c) || c == '.'
  {
    ParseJoinedInverts((a / 4096) % 16, (a / 256) % 16, a % 256, '.');
    IndividualParts(a);
    hide PackIndividual, Joined, ParseJoined;
  }
}
