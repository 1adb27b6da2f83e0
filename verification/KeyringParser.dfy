/** The keyring writer and reader as they run: text appended piece by piece, elements collected in loops. */
module KeyringParser {
  import opened Bytes
  import opened Text
  import opened XmlText
  import opened XmlScan
  import opened Addresses
  import opened Keyring

  /** Append ` name="value"` to a tag under construction. */
  method PushAttribute(xml: string, name: string, value: string, ghost head: string, ghost done: seq<Attribute>)
    returns (r: string)
    requires xml == head + AttributesText(done)
    ensures r == head + AttributesText(done + [Attribute(name, value)])
  {
    AttributesTextAppend(done, [Attribute(name, value)]);
    OneAttribute(Attribute(name, value));
    hide AttributesText;
    r := xml + " " + name + "=\"" + value + "\"";
  }

  method PushText(xml: string, name: string, value: Option<string>, ghost head: string, ghost done: seq<Attribute>)
    returns (r: string)
    requires xml == head + AttributesText(done)
    ensures r == head + AttributesText(done + TextAttribute(name, value))
  {
    hide AttributesText;
    if value.Some? {
      var escaped := EscapeXml(value.value);
      r := PushAttribute(xml, name, escaped, head, done);
    } else {
      assert done + [] == done;
      r := xml;
    }
  }

  method PushKey(xml: string, name: string, value: Option<Octets>, ghost head: string, ghost done: seq<Attribute>)
    returns (r: string)
    requires xml == head + AttributesText(done)
    ensures r == head + AttributesText(done + KeyAttribute(name, value))
  {
    hide AttributesText, HexEncode;
    if value.Some? {
      r := PushAttribute(xml, name, HexEncode(value.value), head, done);
    } else {
      assert done + [] == done;
      r := xml;
    }
  }

  method CloseLine(xml: string, ghost tag: string, ghost done: seq<Attribute>) returns (r: string)
    requires xml == "  " + tag + AttributesText(done)
    ensures r == LineText(tag, done)
  {
    hide AttributesText;
    r := xml + " />\n";
  }

  lemma NoAttributes(head: string)
    ensures head + AttributesText([]) == head
  {
  }

  method InterfaceLine(i: Interface) returns (r: string)
    ensures r == LineText("<Interface", InterfaceAttributes(i))
  {
    hide AttributesText, IndividualText, Decimal, HexEncode, Escaped, LineText;
    ghost var tag, head := "<Interface", "  " + "<Interface";
    NoAttributes(head);
    var xml := "  " + "<Interface";
    xml := PushAttribute(xml, "IndividualAddress", IndividualText(i.address), head, []);
    ghost var done := [] + [Attribute("IndividualAddress", IndividualText(i.address))];
    xml := PushAttribute(xml, "Type", i.kind, head, done);
    done := done + [Attribute("Type", i.kind)];
    var host := EscapeXml(i.host);
    xml := PushAttribute(xml, "Host", host, head, done);
    done := done + [Attribute("Host", host)];
    xml := PushAttribute(xml, "UserID", Decimal(i.userId), head, done);
    done := done + [Attribute("UserID", Decimal(i.userId))];
    xml := PushAttribute(xml, "UserPassword", HexEncode(i.userPassword), head, done);
    done := done + [Attribute("UserPassword", HexEncode(i.userPassword))];
    xml := PushKey(xml, "DeviceAuthentication", i.deviceAuthentication, head, done);
    done := done + KeyAttribute("DeviceAuthentication", i.deviceAuthentication);
    xml := PushKey(xml, "BackboneKey", i.backboneKey, head, done);
    done := done + KeyAttribute("BackboneKey", i.backboneKey);
    r := CloseLine(xml, tag, done);
    assert done == InterfaceAttributes(i);
  }

  method DeviceLine(d: Device) returns (r: string)
    ensures r == LineText("<Device", DeviceAttributes(d))
  {
    hide AttributesText, IndividualText, LineText, TextAttribute, KeyAttribute, DeviceAttributes;
    ghost var tag, head := "<Device", "  " + "<Device";
    NoAttributes(head);
    var xml := "  " + "<Device";
    xml := PushAttribute(xml, "IndividualAddress", IndividualText(d.address), head, []);
    ghost var done := [] + [Attribute("IndividualAddress", IndividualText(d.address))];
    xml := PushText(xml, "SerialNumber", d.serialNumber, head, done);
    done := done + TextAttribute("SerialNumber", d.serialNumber);
    xml := PushKey(xml, "ToolKey", d.toolKey, head, done);
    done := done + KeyAttribute("ToolKey", d.toolKey);
    xml := PushKey(xml, "ManagementPassword", d.managementPassword, head, done);
    done := done + KeyAttribute("ManagementPassword", d.managementPassword);
    xml := PushKey(xml, "AuthenticationCode", d.authenticationCode, head, done);
    done := done + KeyAttribute("AuthenticationCode", d.authenticationCode);
    r := CloseLine(xml, tag, done);
    DeviceList(d);
  }

  lemma DeviceList(d: Device)
    ensures DeviceAttributes(d) ==
            [] + [Attribute("IndividualAddress", IndividualText(d.address))]
            + TextAttribute("SerialNumber", d.serialNumber) + KeyAttribute("ToolKey", d.toolKey)
            + KeyAttribute("ManagementPassword", d.managementPassword)
            + KeyAttribute("AuthenticationCode", d.authenticationCode)
  {
    hide IndividualText, TextAttribute, KeyAttribute;
  }

  method GroupLine(g: GroupEntry) returns (r: string)
    ensures r == LineText("<GroupAddress", GroupAttributes(g))
  {
    hide AttributesText, GroupText, HexEncode, LineText;
    ghost var tag, head := "<GroupAddress", "  " + "<GroupAddress";
    NoAttributes(head);
    var xml := "  " + "<GroupAddress";
    xml := PushAttribute(xml, "Address", GroupText(g.address), head, []);
    ghost var done := [] + [Attribute("Address", GroupText(g.address))];
    xml := PushAttribute(xml, "Key", HexEncode(g.key), head, done);
    done := done + [Attribute("Key", HexEncode(g.key))];
    xml := PushText(xml, "Description", g.description, head, done);
    done := done + TextAttribute("Description", g.description);
    r := CloseLine(xml, tag, done);
    assert done == GroupAttributes(g);
  }

  method Header(m: Metadata) returns (r: string)
    ensures r == HeaderText(m)
  {
    hide AttributesText;
    ghost var head := XML_DECLARATION + "<Keyring";
    NoAttributes(head);
    var xml := XML_DECLARATION + "<Keyring";
    xml := PushText(xml, "Created", m.created, head, []);
    ghost var done := [] + TextAttribute("Created", m.created);
    xml := PushText(xml, "CreatedBy", m.creator, head, done);
    done := done + TextAttribute("CreatedBy", m.creator);
    xml := PushText(xml, "Project", m.project, head, done);
    done := done + TextAttribute("Project", m.project);
    assert done == MetadataAttributes(m);
    r := xml + ">\n";
  }

  lemma {:induction false} SectionSnoc(tag: string, elements: seq<seq<Attribute>>, last: seq<Attribute>)
    ensures SectionText(tag, elements + [last]) == SectionText(tag, elements) + LineText(tag, last)
  {
    hide LineText;
    if elements == [] {
      assert elements + [last] == [last] && [last][1..] == [];
      assert SectionText(tag, [last]) == LineText(tag, last) + "";
    } else {
      assert (elements + [last])[1..] == elements[1..] + [last];
      SectionSnoc(tag, elements[1..], last);
    }
  }

  /** One more element of a list, one more line of its section. */
  lemma NextLine<A>(tag: string, f: A -> seq<Attribute>, xs: seq<A>, n: nat)
    requires n < |xs|
    ensures SectionText(tag, Map(f, xs[..n + 1])) == SectionText(tag, Map(f, xs[..n])) + LineText(tag, f(xs[n]))
  {
    hide SectionText, LineText;
    assert Map(f, xs[..n + 1]) == Map(f, xs[..n]) + [f(xs[n])];
    SectionSnoc(tag, Map(f, xs[..n]), f(xs[n]));
  }

  lemma NoLines(tag: string)
    ensures SectionText(tag, []) == ""
  {
  }

  method InterfaceLines(items: seq<Interface>, before: string) returns (xml: string)
    ensures xml == before + SectionText("<Interface", Map(InterfaceAttributes, items))
  {
    hide LineText, InterfaceAttributes, SectionText;
    xml := before;
    NoLines("<Interface");
    for n := 0 to |items|
      invariant xml == before + SectionText("<Interface", Map(InterfaceAttributes, items[..n]))
    {
      var line := InterfaceLine(items[n]);
      NextLine("<Interface", InterfaceAttributes, items, n);
      xml := xml + line;
    }
    assert items[..|items|] == items;
  }

  method DeviceLines(items: seq<Device>, before: string) returns (xml: string)
    ensures xml == before + SectionText("<Device", Map(DeviceAttributes, items))
  {
    hide LineText, DeviceAttributes, SectionText;
    xml := before;
    NoLines("<Device");
    for n := 0 to |items|
      invariant xml == before + SectionText("<Device", Map(DeviceAttributes, items[..n]))
    {
      var line := DeviceLine(items[n]);
      NextLine("<Device", DeviceAttributes, items, n);
      xml := xml + line;
    }
    assert items[..|items|] == items;
  }

  method GroupLines(items: seq<GroupEntry>, before: string) returns (xml: string)
    ensures xml == before + SectionText("<GroupAddress", Map(GroupAttributes, items))
  {
    hide LineText, GroupAttributes, SectionText;
    xml := before;
    NoLines("<GroupAddress");
    for n := 0 to |items|
      invariant xml == before + SectionText("<GroupAddress", Map(GroupAttributes, items[..n]))
    {
      var line := GroupLine(items[n]);
      NextLine("<GroupAddress", GroupAttributes, items, n);
      xml := xml + line;
    }
    assert items[..|items|] == items;
  }

  /** The writer produces the file text, line by line. */
  method Serialize(k: Config) returns (xml: string)
    ensures xml == FileText(k)
  {
    hide HeaderText, SectionText, Map;
    xml := Header(k.metadata);
    xml := InterfaceLines(k.interfaces, xml);
    xml := DeviceLines(k.devices, xml);
    xml := GroupLines(k.groupAddresses, xml);
    xml := xml + FOOTER;
  }

  /** The reader: document tag, then one pass over the whole text per kind of element. */
  method Parse(xml: string) returns (k: Config)
    ensures k == ParseKeyring(xml)
  {
    hide Scan, ParseMetadata;
    var interfaces := ScanElements(xml, "<Interface", "</Interface>", ParseInterfaceElement);
    var devices := ScanElements(xml, "<Device", "</Device>", ParseDeviceElement);
    var groups := ScanElements(xml, "<GroupAddress", "</GroupAddress>", ParseGroupElement);
    k := Config(ParseMetadata(xml), interfaces, devices, groups);
  }
}
