/** Keyring files: the writer, the reader, and what survives the trip through both. */
module Keyring {
  import opened Bytes
  import opened Text
  import opened XmlText
  import opened XmlScan
  import opened Addresses

  datatype Metadata = Metadata(created: Option<string>, creator: Option<string>, project: Option<string>)

  datatype Interface = Interface(
    address: IndividualAddress,
    kind: string,
    host: string,
    userId: byte,
    userPassword: Octets,
    deviceAuthentication: Option<Octets>,
    backboneKey: Option<Octets>)

  datatype Device = Device(
    address: IndividualAddress,
    serialNumber: Option<string>,
    toolKey: Option<Octets>,
    managementPassword: Option<Octets>,
    authenticationCode: Option<Octets>)

  datatype GroupEntry = GroupEntry(address: GroupAddress, key: Octets, description: Option<string>)

  datatype Config = Config(
    metadata: Metadata,
    interfaces: seq<Interface>,
    devices: seq<Device>,
    groupAddresses: seq<GroupEntry>)

  // ---- The writer, as text ----

  const XML_DECLARATION: string := "<?xml version=\"1.0\" encoding=\"utf-8\"?>\n"

  const FOOTER: string := "</Keyring>\n"

  function TextAttribute(name: string, value: Option<string>): (r: seq<Attribute>) {
    if value.Some? then [Attribute(name, Escaped(value.value))] else []
  }

  function KeyAttribute(name: string, value: Option<Octets>): (r: seq<Attribute>) {
    if value.Some? then [Attribute(name, HexEncode(value.value))] else []
  }

  function MetadataAttributes(m: Metadata): (r: seq<Attribute>) {
    TextAttribute("Created", m.created) + (TextAttribute("CreatedBy", m.creator) + TextAttribute("Project", m.project))
  }

  function PlainAttribute(name: string, value: string): (r: seq<Attribute>) {
    [Attribute(name, value)]
  }

  function InterfaceTail(i: Interface): (r: seq<Attribute>) {
    PlainAttribute("Host", Escaped(i.host))
    + (PlainAttribute("UserID", Decimal(i.userId))
       + (PlainAttribute("UserPassword", HexEncode(i.userPassword))
          + (KeyAttribute("DeviceAuthentication", i.deviceAuthentication)
             + KeyAttribute("BackboneKey", i.backboneKey))))
  }

  /** The interface type is the one text value that is written without escaping. */
  function InterfaceAttributes(i: Interface): (r: seq<Attribute>) {
    PlainAttribute("IndividualAddress", IndividualText(i.address))
    + (PlainAttribute("Type", i.kind) + InterfaceTail(i))
  }

  function DeviceAttributes(d: Device): (r: seq<Attribute>) {
    PlainAttribute("IndividualAddress", IndividualText(d.address))
    + (TextAttribute("SerialNumber", d.serialNumber)
       + (KeyAttribute("ToolKey", d.toolKey)
          + (KeyAttribute("ManagementPassword", d.managementPassword)
             + KeyAttribute("AuthenticationCode", d.authenticationCode))))
  }

  function GroupAttributes(g: GroupEntry): (r: seq<Attribute>) {
    PlainAttribute("Address", GroupText(g.address))
    + (PlainAttribute("Key", HexEncode(g.key))
       + TextAttribute("Description", g.description))
  }

  function LineText(tag: string, attrs: seq<Attribute>): (s: string) {
    "  " + (tag + AttributesText(attrs) + " />") + "\n"
  }

  function SectionText(tag: string, elements: seq<seq<Attribute>>): (s: string) {
    if elements == [] then "" else LineText(tag, elements[0]) + SectionText(tag, elements[1..])
  }

  function HeaderText(m: Metadata): (s: string) {
    XML_DECLARATION + ("<Keyring" + AttributesText(MetadataAttributes(m)) + ">") + "\n"
  }

  function Map<A, B>(f: A -> B, xs: seq<A>): (r: seq<B>)
    ensures |r| == |xs| && forall i :: 0 <= i < |xs| ==> r[i] == f(xs[i])
  {
    if xs == [] then [] else [f(xs[0])] + Map(f, xs[1..])
  }

  function InterfaceSection(k: Config): (s: string) {
    SectionText("<Interface", Map(InterfaceAttributes, k.interfaces))
  }

  function DeviceSection(k: Config): (s: string) {
    SectionText("<Device", Map(DeviceAttributes, k.devices))
  }

  function GroupSection(k: Config): (s: string) {
    SectionText("<GroupAddress", Map(GroupAttributes, k.groupAddresses))
  }

  function FileText(k: Config): (s: string) {
    HeaderText(k.metadata) + InterfaceSection(k) + DeviceSection(k) + GroupSection(k) + FOOTER
  }

  // ---- The reader ----

  function KeyOf(value: Option<string>): (r: Option<Octets>) {
    if value.None? then None else KeyFromHex(value.value)
  }

  function ParseGroupElement(xml: string): (r: Option<GroupEntry>) {
    var text := ExtractAttribute(xml, "Address");
    var address := if text.None? then None else ParseGroup(text.value);
    var key := KeyOf(ExtractAttribute(xml, "Key"));
    if address.None? || key.None? then None
    else Some(GroupEntry(address.value, key.value, ExtractAttribute(xml, "Description")))
  }

  function ParseDeviceElement(xml: string): (r: Option<Device>) {
    var text := ExtractAttribute(xml, "IndividualAddress");
    var address := if text.None? then None else ParseIndividual(text.value);
    if address.None? then None
    else Some(Device(address.value, ExtractAttribute(xml, "SerialNumber"), KeyOf(ExtractAttribute(xml, "ToolKey")),
                     KeyOf(ExtractAttribute(xml, "ManagementPassword")),
                     KeyOf(ExtractAttribute(xml, "AuthenticationCode"))))
  }

  function OrElse<T>(value: Option<T>, default: T): (r: T) {
    if value.Some? then value.value else default
  }

  function ParseInterfaceElement(xml: string): (r: Option<Interface>) {
    var text := ExtractAttribute(xml, "IndividualAddress");
    var address := if text.None? then None else ParseIndividual(text.value);
    if address.None? then None
    else
      var id := ExtractAttribute(xml, "UserID");
      Some(Interface(
             address.value,
             OrElse(ExtractAttribute(xml, "Type"), "Unknown"),
             OrElse(ExtractAttribute(xml, "Host"), "0.0.0.0"),
             OrElse(if id.None? then None else ParseU8(id.value), 1),
             OrElse(KeyOf(ExtractAttribute(xml, "UserPassword")), Zeros(16)),
             KeyOf(ExtractAttribute(xml, "DeviceAuthentication")),
             KeyOf(ExtractAttribute(xml, "BackboneKey"))))
  }

  function ParseMetadata(xml: string): (r: Metadata) {
    var start := Find(xml, "<Keyring");
    if start.None? then Metadata(None, None, None)
    else
      var end := Find(xml[start.value..], ">");
      if end.None? then Metadata(None, None, None)
      else
        var tag := xml[start.value..start.value + end.value + 1];
        Metadata(ExtractAttribute(tag, "Created"), ExtractAttribute(tag, "CreatedBy"), ExtractAttribute(tag, "Project"))
  }

  function GroupsIn(xml: string): (r: seq<GroupEntry>) {
    Scan(xml, "<GroupAddress", "</GroupAddress>", ParseGroupElement)
  }

  function ParseKeyring(xml: string): (r: Config) {
    Config(ParseMetadata(xml),
           Scan(xml, "<Interface", "</Interface>", ParseInterfaceElement),
           Scan(xml, "<Device", "</Device>", ParseDeviceElement),
           GroupsIn(xml))
  }
}
