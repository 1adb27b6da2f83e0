/** Reading back what was written: proofs about the keyring text. */
module KeyringTrip {
  import opened Bytes
  import opened Text
  import opened XmlText
  import opened XmlScan
  import opened Addresses
  import opened Keyring

  // ---- Attribute lists that leave the markup alone ----

  predicate CleanValue(v: string) { '"' !in v && '<' !in v && '>' !in v }

  predicate CleanAttribute(a: Attribute) { CleanName(a.name) && CleanValue(a.value) }

  ghost predicate Clean(attrs: seq<Attribute>) {
    forall i :: 0 <= i < |attrs| ==> CleanAttribute(attrs[i])
  }

  lemma {:induction false} CleanText(attrs: seq<Attribute>)
    requires Clean(attrs)
    ensures AttributesOk(attrs)
    ensures '<' !in AttributesText(attrs) && '>' !in AttributesText(attrs)
  {
    if attrs != [] {
      assert CleanAttribute(attrs[0]);
      assert NameOk(attrs[0].name) && CleanValue(attrs[0].name);
      CleanText(attrs[1..]);
    }
  }

  lemma CleanAppend(a: seq<Attribute>, b: seq<Attribute>)
    requires Clean(a) && Clean(b)
    ensures Clean(a + b)
  {
  }

  lemma NumeralsAreClean(a: IndividualAddress, g: GroupAddress, n: nat, key: Octets)
    ensures CleanValue(IndividualText(a)) && CleanValue(GroupText(g))
    ensures CleanValue(Decimal(n)) && CleanValue(HexEncode(key))
  {
    IndividualTextRoundTrip(a);
    GroupTextRoundTrip(g);
    hide IndividualText, GroupText, Decimal, HexEncode;
  }

  /** Letters only: none of the characters that mean something in a tag. */
  predicate CleanName(name: string) {
    name != "" && forall i :: 0 <= i < |name| ==> 'A' <= name[i] <= 'z'
  }

  lemma GroupNames()
    ensures CleanName("Address") && CleanName("Key") && CleanName("Description")
  {
  }

  lemma DeviceNames()
    ensures CleanName("IndividualAddress") && CleanName("SerialNumber") && CleanName("ToolKey")
    ensures CleanName("ManagementPassword") && CleanName("AuthenticationCode")
  {
  }

  lemma InterfaceNames()
    ensures CleanName("IndividualAddress") && CleanName("Type") && CleanName("Host") && CleanName("UserID")
    ensures CleanName("UserPassword") && CleanName("DeviceAuthentication") && CleanName("BackboneKey")
  {
  }

  lemma MetadataNames()
    ensures CleanName("Created") && CleanName("CreatedBy") && CleanName("Project")
  {
  }

  lemma PlainClean(name: string, value: string)
    requires CleanName(name) && CleanValue(value)
    ensures Clean(PlainAttribute(name, value))
  {
  }

  lemma TextClean(name: string, value: Option<string>)
    requires CleanName(name)
    ensures Clean(TextAttribute(name, value))
  {
    if value.Some? {
      EscapedIsInert(value.value);
    }
  }

  lemma KeyClean(name: string, value: Option<Octets>)
    requires CleanName(name)
    ensures Clean(KeyAttribute(name, value))
  {
    if value.Some? {
      NumeralsAreClean(0, 0, 0, value.value);
    }
  }

  lemma GroupClean(g: GroupEntry)
    ensures Clean(GroupAttributes(g))
  {
    hide Clean, CleanName, CleanValue, PlainAttribute, TextAttribute, GroupText, HexEncode;
    GroupNames();
    NumeralsAreClean(0, g.address, 0, g.key);
    PlainClean("Address", GroupText(g.address));
    PlainClean("Key", HexEncode(g.key));
    TextClean("Description", g.description);
    CleanAppend(PlainAttribute("Key", HexEncode(g.key)), TextAttribute("Description", g.description));
    CleanAppend(PlainAttribute("Address", GroupText(g.address)),
                PlainAttribute("Key", HexEncode(g.key)) + TextAttribute("Description", g.description));
  }

  lemma DeviceClean(d: Device)
    ensures Clean(DeviceAttributes(d))
  {
    hide Clean, CleanName, CleanValue, PlainAttribute, TextAttribute, KeyAttribute, IndividualText;
    DeviceNames();
    NumeralsAreClean(d.address, 0, 0, []);
    PlainClean("IndividualAddress", IndividualText(d.address));
    TextClean("SerialNumber", d.serialNumber);
    KeyClean("ToolKey", d.toolKey);
    KeyClean("ManagementPassword", d.managementPassword);
    KeyClean("AuthenticationCode", d.authenticationCode);
    var keys := KeyAttribute("ManagementPassword", d.managementPassword)
                + KeyAttribute("AuthenticationCode", d.authenticationCode);
    CleanAppend(KeyAttribute("ManagementPassword", d.managementPassword),
                KeyAttribute("AuthenticationCode", d.authenticationCode));
    CleanAppend(KeyAttribute("ToolKey", d.toolKey), keys);
    CleanAppend(TextAttribute("SerialNumber", d.serialNumber), KeyAttribute("ToolKey", d.toolKey) + keys);
    CleanAppend(PlainAttribute("IndividualAddress", IndividualText(d.address)),
                TextAttribute("SerialNumber", d.serialNumber) + (KeyAttribute("ToolKey", d.toolKey) + keys));
  }

  lemma InterfaceTailClean(i: Interface)
    ensures Clean(InterfaceTail(i))
  {
    assert CleanValue(Escaped(i.host)) by {
      EscapedIsInert(i.host);
    }
    hide Clean, CleanName, CleanValue, PlainAttribute, KeyAttribute, Decimal, HexEncode, Escaped;
    InterfaceNames();
    NumeralsAreClean(i.address, 0, i.userId, i.userPassword);
    var c := PlainAttribute("Host", Escaped(i.host));
    var d := PlainAttribute("UserID", Decimal(i.userId));
    var e := PlainAttribute("UserPassword", HexEncode(i.userPassword));
    var f := KeyAttribute("DeviceAuthentication", i.deviceAuthentication);
    var g := KeyAttribute("BackboneKey", i.backboneKey);
    PlainClean("Host", Escaped(i.host));
    PlainClean("UserID", Decimal(i.userId));
    PlainClean("UserPassword", HexEncode(i.userPassword));
    KeyClean("DeviceAuthentication", i.deviceAuthentication);
    KeyClean("BackboneKey", i.backboneKey);
    CleanAppend(f, g);
    CleanAppend(e, f + g);
    CleanAppend(d, e + (f + g));
    CleanAppend(c, d + (e + (f + g)));
  }

  lemma MetadataClean(m: Metadata)
    ensures Clean(MetadataAttributes(m))
  {
    hide Clean, CleanName, TextAttribute;
    MetadataNames();
    TextClean("Created", m.created);
    TextClean("CreatedBy", m.creator);
    TextClean("Project", m.project);
    CleanAppend(TextAttribute("CreatedBy", m.creator), TextAttribute("Project", m.project));
    CleanAppend(TextAttribute("Created", m.created),
                TextAttribute("CreatedBy", m.creator) + TextAttribute("Project", m.project));
  }

  // ---- Sections ----

  ghost predicate AllClean(elements: seq<seq<Attribute>>) {
    forall i :: 0 <= i < |elements| ==> Clean(elements[i])
  }

  /** Every element of the section ends where its line does. */
  ghost predicate AllUncut(tag: string, elements: seq<seq<Attribute>>) {
    forall i :: 0 <= i < |elements| ==> Uncut(tag + AttributesText(elements[i]))
  }

  lemma CleanUncut(tag: string, elements: seq<seq<Attribute>>)
    requires '>' !in tag && AllClean(elements)
    ensures AllUncut(tag, elements)
  {
    hide Uncut, AttributesText, Clean;
    forall i | 0 <= i < |elements| ensures Uncut(tag + AttributesText(elements[i])) {
      CleanText(elements[i]);
      NoAngleUncut(tag + AttributesText(elements[i]));
    }
  }

  ghost predicate ParsesTo<T(!new)>(
    elements: seq<seq<Attribute>>, tag: string, parse: string -> Option<T>, items: seq<T>)
  {
    |elements| == |items|
    && forall i :: 0 <= i < |items| ==> parse(tag + AttributesText(elements[i]) + " />") == Some(items[i])
  }

  /** Scanning a section yields its items, then whatever the rest of the text yields. */
  lemma {:induction false} ScanSection<T(!new)>(
    elements: seq<seq<Attribute>>, rest: string, tag: string, close: string, parse: string -> Option<T>, items: seq<T>)
    requires TagOk(tag, close) && AllUncut(tag, elements) && ParsesTo(elements, tag, parse, items)
    ensures Scan(SectionText(tag, elements) + rest, tag, close, parse) == items + Scan(rest, tag, close, parse)
    decreases |elements|
  {
    hide Scan, AttributesText, Uncut;
    if elements == [] {
      assert SectionText(tag, elements) + rest == rest;
    } else {
      var body := tag + AttributesText(elements[0]);
      var after := SectionText(tag, elements[1..]) + rest;
      assert SectionText(tag, elements) + rest == "  " + (body + " />" + ("\n" + after));
      ScanSkip("  ", body + " />" + ("\n" + after), tag, close, parse);
      ScanElement(body, "\n" + after, tag, close, parse);
      ScanSkip("\n", after, tag, close, parse);
      ScanSection(elements[1..], rest, tag, close, parse, items[1..]);
      assert items == [items[0]] + items[1..];
    }
  }

  lemma NoTagPlain(s: string, c: char)
    requires '<' !in s
    ensures NoTag(s, c)
  {
  }

  lemma TagHead(tag: string, c: char)
    requires |tag| >= 2 && tag[0] == '<' && '<' !in tag[1..] && tag[1] != c
    ensures NoTag(tag, c)
  {
    assert forall j :: 1 <= j < |tag| ==> tag[j] == tag[1..][j - 1];
  }

  /** No element of the section has a `<` in its attributes. */
  ghost predicate NoLess(elements: seq<seq<Attribute>>) {
    forall i :: 0 <= i < |elements| ==> '<' !in AttributesText(elements[i])
  }

  lemma CleanNoLess(elements: seq<seq<Attribute>>)
    requires AllClean(elements)
    ensures NoLess(elements)
  {
    forall i | 0 <= i < |elements| ensures '<' !in AttributesText(elements[i]) {
      CleanText(elements[i]);
    }
  }

  lemma {:induction false} NoTagSection(elements: seq<seq<Attribute>>, tag: string, c: char)
    requires |tag| >= 2 && tag[0] == '<' && '<' !in tag[1..] && tag[1] != c && NoLess(elements)
    ensures NoTag(SectionText(tag, elements), c)
  {
    if elements != [] {
      var text := AttributesText(elements[0]);
      TagHead(tag, c);
      NoTagSection(elements[1..], tag, c);
      hide NoTag, AttributesText;
      NoTagPlain("  ", c);
      NoTagPlain(text, c);
      NoTagPlain(" />", c);
      NoTagPlain("\n", c);
      NoTagAppend(tag, text, c);
      NoTagAppend(tag + text, " />", c);
      NoTagAppend("  ", tag + text + " />", c);
      NoTagAppend("  " + (tag + text + " />"), "\n", c);
      NoTagAppend(LineText(tag, elements[0]), SectionText(tag, elements[1..]), c);
    }
  }

  lemma NoTagDeclaration(c: char)
    requires c != '?'
    ensures NoTag(XML_DECLARATION, c)
  {
    assert forall j :: 1 <= j < |XML_DECLARATION| ==> XML_DECLARATION[j] != '<';
  }

  lemma NoTagHeader(m: Metadata, c: char)
    requires c != '?' && c != 'K'
    ensures NoTag(HeaderText(m), c)
  {
    var text := AttributesText(MetadataAttributes(m));
    MetadataClean(m);
    CleanText(MetadataAttributes(m));
    TagHead("<Keyring", c);
    NoTagDeclaration(c);
    NoTagPlain(text, c);
    NoTagPlain(">", c);
    NoTagPlain("\n", c);
    hide NoTag, AttributesText, MetadataAttributes, XML_DECLARATION;
    NoTagAppend("<Keyring", text, c);
    NoTagAppend("<Keyring" + text, ">", c);
    NoTagAppend(XML_DECLARATION, "<Keyring" + text + ">", c);
    NoTagAppend(XML_DECLARATION + ("<Keyring" + text + ">"), "\n", c);
  }

  lemma {:induction false} SectionEndsClosed(elements: seq<seq<Attribute>>, tag: string)
    ensures EndsClosed(SectionText(tag, elements))
  {
    if elements != [] {
      var line, rest := LineText(tag, elements[0]), SectionText(tag, elements[1..]);
      assert line[|line| - 4..] == " />\n";
      if elements[1..] == [] {
        assert line + rest == line;
      } else {
        SectionEndsClosed(elements[1..], tag);
        assert |rest| >= 6;
        assert (line + rest)[|line + rest| - 4..] == rest[|rest| - 4..];
      }
    }
  }

  // ---- Looking up one attribute after the other ----

  predicate DifferentEnds(a: string, b: string) {
    a != "" && b != "" && a[|a| - 1] != b[|b| - 1]
  }

  lemma NoSuffix(a: string, b: string)
    requires DifferentEnds(a, b)
    ensures !EndsWith(a, b)
  {
    if |b| <= |a| {
      assert a[|a| - |b|..][|b| - 1] == a[|a| - 1];
    }
  }

  /** A numeral cannot be mistaken for the end of `name=`. */
  lemma TameNumeral(v: string, name: string)
    requires '=' !in v
    ensures !EndsWith(v, name + "=")
  {
    if v != "" {
      NoSuffix(v, name + "=");
    }
  }

  lemma NumeralsAreTame(a: IndividualAddress, g: GroupAddress, n: nat, key: Octets)
    ensures '=' !in IndividualText(a) && '&' !in IndividualText(a) && '=' !in GroupText(g) && '&' !in GroupText(g)
    ensures '=' !in Decimal(n) && '&' !in Decimal(n) && '=' !in HexEncode(key) && '&' !in HexEncode(key)
  {
    IndividualTextRoundTrip(a);
    GroupTextRoundTrip(g);
    hide IndividualText, GroupText, Decimal, HexEncode;
  }

  lemma PastPlain(own: string, v: string, rest: seq<Attribute>, name: string)
    requires DifferentEnds(own, name) && !EndsWith(v, name + "=")
    ensures Looked(PlainAttribute(own, v) + rest, name) == Looked(rest, name)
  {
    hide EndsWith;
    NoSuffix(own, name);
    assert (PlainAttribute(own, v) + rest)[1..] == rest;
  }

  lemma PastKey(own: string, v: Option<Octets>, rest: seq<Attribute>, name: string)
    requires DifferentEnds(own, name)
    ensures Looked(KeyAttribute(own, v) + rest, name) == Looked(rest, name)
  {
    hide Looked, EndsWith;
    if v.Some? {
      NumeralsAreTame(0, 0, 0, v.value);
      TameNumeral(HexEncode(v.value), name);
      PastPlain(own, HexEncode(v.value), rest, name);
    } else {
      assert KeyAttribute(own, v) + rest == rest;
    }
  }

  lemma PastText(own: string, v: Option<string>, rest: seq<Attribute>, name: string)
    requires DifferentEnds(own, name) && (v.Some? ==> !EndsWith(Escaped(v.value), name + "="))
    ensures Looked(TextAttribute(own, v) + rest, name) == Looked(rest, name)
  {
    hide Looked, EndsWith;
    if v.Some? {
      PastPlain(own, Escaped(v.value), rest, name);
    } else {
      assert TextAttribute(own, v) + rest == rest;
    }
  }

  lemma HitPlain(name: string, v: string, rest: seq<Attribute>)
    ensures Looked(PlainAttribute(name, v) + rest, name) == Some(UnescapeXml(v))
  {
    assert EndsWith(name, name);
  }

  lemma HitKey(name: string, v: Option<Octets>, rest: seq<Attribute>)
    ensures KeyOf(Looked(KeyAttribute(name, v) + rest, name)) == if v.Some? then v else KeyOf(Looked(rest, name))
  {
    hide Looked, KeyFromHex, HexEncode;
    if v.Some? {
      HitPlain(name, HexEncode(v.value), rest);
      NumeralsAreTame(0, 0, 0, v.value);
      KeyHexRoundTrip(v.value);
    } else {
      assert KeyAttribute(name, v) + rest == rest;
    }
  }

  lemma HitText(name: string, v: Option<string>, rest: seq<Attribute>)
    ensures Looked(TextAttribute(name, v) + rest, name) == if v.Some? then v else Looked(rest, name)
  {
    hide Looked, UnescapeXml;
    if v.Some? {
      HitPlain(name, Escaped(v.value), rest);
      UnescapeInverts(v.value);
    } else {
      assert TextAttribute(name, v) + rest == rest;
    }
  }

  // ---- Group addresses ----

  function GroupElement(g: GroupEntry): (s: string) {
    "<GroupAddress" + AttributesText(GroupAttributes(g)) + " />"
  }

  lemma ElementAttribute(tag: string, attrs: seq<Attribute>, name: string)
    requires '"' !in tag && Clean(attrs) && NameOk(name)
    ensures ExtractAttribute(tag + AttributesText(attrs) + " />", name) == Looked(attrs, name)
  {
    CleanText(attrs);
    ExtractFromTag(tag, attrs, " />", name);
  }

  /** The same for values that need not be clean otherwise: only quotes matter to the search. */
  lemma TagAttribute(tag: string, attrs: seq<Attribute>, name: string)
    requires '"' !in tag && AttributesOk(attrs) && NameOk(name)
    ensures ExtractAttribute(tag + AttributesText(attrs) + " />", name) == Looked(attrs, name)
  {
    ExtractFromTag(tag, attrs, " />", name);
  }

  lemma GroupLookups(g: GroupEntry)
    ensures var attrs := GroupAttributes(g);
            && Looked(attrs, "Address") == Some(GroupText(g.address))
            && KeyOf(Looked(attrs, "Key")) == Some(g.key)
            && Looked(attrs, "Description") == g.description
  {
    var text, key := GroupText(g.address), HexEncode(g.key);
    var a, k := PlainAttribute("Address", text), KeyAttribute("Key", Some(g.key));
    var d := TextAttribute("Description", g.description);
    assert k == PlainAttribute("Key", key);
    NumeralsAreTame(0, g.address, 0, g.key);
    assert UnescapeXml(text) == text;
    hide Looked, EndsWith, GroupText, HexEncode, UnescapeXml, PlainAttribute, KeyAttribute, TextAttribute, KeyOf;
    HitPlain("Address", text, k + d);
    TameNumeral(text, "Key");
    PastPlain("Address", text, k + d, "Key");
    HitKey("Key", Some(g.key), d);
    TameNumeral(text, "Description");
    PastPlain("Address", text, k + d, "Description");
    PastKey("Key", Some(g.key), d, "Description");
    HitText("Description", g.description, []);
    assert d + [] == d;
    assert Looked([], "Description") == None by { NothingFound("Description"); }
  }

  lemma NothingFound(name: string)
    ensures Looked([], name) == None && KeyOf(Looked([], name)) == None
  {
  }

  /** Every group entry, whatever its key and description, is read back from its own element. */
  lemma GroupElementRoundTrip(g: GroupEntry)
    ensures ParseGroupElement(GroupElement(g)) == Some(g)
  {
    GroupLookups(g);
    GroupClean(g);
    hide Looked, KeyOf, GroupText, ParseGroup, ExtractAttribute, AttributesText, GroupAttributes, Clean;
    ElementAttribute("<GroupAddress", GroupAttributes(g), "Address");
    ElementAttribute("<GroupAddress", GroupAttributes(g), "Key");
    ElementAttribute("<GroupAddress", GroupAttributes(g), "Description");
    GroupTextRoundTrip(g.address);
  }
}
