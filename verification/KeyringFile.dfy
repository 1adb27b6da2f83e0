/** Whole keyring files: what the reader makes of the writer's text. */
module KeyringFile {
  import opened Bytes
  import opened Text
  import opened XmlText
  import opened XmlScan
  import opened XmlElements
  import opened Keyring
  import opened KeyringTrip
  import opened KeyringEntries
  import opened KeyringInterfaces
  import opened KeyringTypes

  // ---- Group addresses in the whole file ----

  lemma GroupsClean(gs: seq<GroupEntry>)
    ensures AllClean(Map(GroupAttributes, gs))
    ensures ParsesTo(Map(GroupAttributes, gs), GROUP, ParseGroupElement, gs)
  {
    hide Clean, AttributesText, ParseGroupElement, GroupAttributes;
    forall i | 0 <= i < |gs|
      ensures Clean(Map(GroupAttributes, gs)[i])
      ensures ParseGroupElement(GROUP + AttributesText(Map(GroupAttributes, gs)[i]) + " />") == Some(gs[i])
    {
      GroupClean(gs[i]);
      GroupElementRoundTrip(gs[i]);
    }
  }

  lemma DevicesNoLess(ds: seq<Device>)
    ensures NoLess(Map(DeviceAttributes, ds))
  {
    hide Clean, AttributesText, DeviceAttributes;
    forall i | 0 <= i < |ds| ensures Clean(Map(DeviceAttributes, ds)[i]) {
      DeviceClean(ds[i]);
    }
    CleanNoLess(Map(DeviceAttributes, ds));
  }

  lemma FooterIsPassed<T>(tag: string, close: string, parse: string -> Option<T>)
    requires TagOk(tag, close) && tag[1] != '/'
    ensures Scan(FOOTER, tag, close, parse) == []
  {
    TagHead(FOOTER, tag[1]);
    ScanSkip(FOOTER, "", tag, close, parse);
    assert FOOTER + "" == FOOTER;
    ScanEmpty(tag, close, parse);
  }

  lemma DeviceSectionHasNoTag(k: Config, c: char)
    requires c != 'D'
    ensures NoTag(DeviceSection(k), c)
  {
    DevicesNoLess(k.devices);
    NoTagSection(Map(DeviceAttributes, k.devices), "<Device", c);
  }

  lemma InterfaceSectionIsClosed(k: Config)
    ensures EndsClosed(InterfaceSection(k))
  {
    SectionEndsClosed(Map(InterfaceAttributes, k.interfaces), "<Interface");
  }

  lemma ScanGroupSection(k: Config)
    ensures GroupsIn(GroupSection(k) + FOOTER) == k.groupAddresses
  {
    hide Scan, AllClean, AllUncut, ParsesTo, Map;
    GroupsClean(k.groupAddresses);
    CleanUncut(GROUP, Map(GroupAttributes, k.groupAddresses));
    ScanSection(Map(GroupAttributes, k.groupAddresses), FOOTER, GROUP, "</GroupAddress>", ParseGroupElement,
                k.groupAddresses);
    FooterIsPassed(GROUP, "</GroupAddress>", ParseGroupElement);
    assert k.groupAddresses + [] == k.groupAddresses;
  }

  lemma Nested(a: string, b: string, c: string, d: string, e: string)
    ensures a + b + c + d + e == a + (b + (c + (d + e)))
  {
  }

  /**
    * For every keyring, the group entries of its file come back complete and in order; all that can come before
    * them is what the interface section, whose types are written unescaped, contributes on its own.
    */
  lemma GroupsOfFile(k: Config)
    ensures GroupsIn(FileText(k)) == GroupsIn(InterfaceSection(k)) + k.groupAddresses
  {
    hide Scan, HeaderText, NoTag, EndsClosed, Inert, TagOk, InterfaceSection, DeviceSection, GroupSection, FOOTER;
    var h, i, d, g := HeaderText(k.metadata), InterfaceSection(k), DeviceSection(k), GroupSection(k);
    var close := "</GroupAddress>";
    GroupTagIsInert();
    NoTagHeader(k.metadata, 'G');
    InterfaceSectionIsClosed(k);
    DeviceSectionHasNoTag(k, 'G');
    ScanGroupSection(k);
    Nested(h, i, d, g, FOOTER);
    ScanSkip(h, i + (d + (g + FOOTER)), GROUP, close, ParseGroupElement);
    ScanClosed(i, d + (g + FOOTER), GROUP, close, ParseGroupElement);
    ScanSkip(d, g + FOOTER, GROUP, close, ParseGroupElement);
  }

  // ---- The interface section, line by line ----

  ghost function SectionOf(interfaces: seq<Interface>): (s: string) {
    SectionText("<Interface", Map(InterfaceAttributes, interfaces))
  }

  lemma SectionStep(interfaces: seq<Interface>)
    requires interfaces != []
    ensures SectionOf(interfaces) == InterfaceText(interfaces[0]) + SectionOf(interfaces[1..])
  {
    hide InterfaceAttributes, LineText;
    var all := Map(InterfaceAttributes, interfaces);
    assert all[0] == InterfaceAttributes(interfaces[0]) && all[1..] == Map(InterfaceAttributes, interfaces[1..]);
  }

  lemma LineIsClosed(i: Interface)
    ensures EndsClosed(InterfaceText(i))
  {
    hide InterfaceAttributes, AttributesText;
    var line := InterfaceText(i);
    assert line[|line| - 4..] == " />\n";
  }

  /** The reader of other elements finds nothing in the section exactly when it finds nothing in any type and its tail. */
  lemma {:induction false} SectionIsQuiet<T(!new)>(
    interfaces: seq<Interface>, tag: string, close: string, parse: string -> Option<T>)
    requires TagOk(tag, close) && Inert(tag) && tag[1] != 'I'
    ensures Scan(SectionOf(interfaces), tag, close, parse) == []
            <==> forall i :: i in interfaces ==> Scan(i.kind + TypeTail(i), tag, close, parse) == []
    decreases |interfaces|
  {
    hide Scan, InterfaceText, TypeTail, EndsClosed, Inert;
    if interfaces == [] {
      ScanEmpty(tag, close, parse);
    } else {
      var first, rest := interfaces[0], interfaces[1..];
      SectionStep(interfaces);
      hide SectionOf;
      LineIsClosed(first);
      ScanClosed(InterfaceText(first), SectionOf(rest), tag, close, parse);
      ScanFromType(first, tag, close, parse);
      SectionIsQuiet(rest, tag, close, parse);
      assert interfaces == [first] + rest;
    }
  }

  lemma GroupsIffQuiet(k: Config)
    ensures GroupsIn(FileText(k)) == k.groupAddresses
            <==> forall i :: i in k.interfaces ==> GroupsIn(i.kind + TypeTail(i)) == []
  {
    hide FileText, Scan, TypeTail, Inert, TagOk, SectionText, Map;
    GroupTagIsInert();
    GroupsOfFile(k);
    SectionIsQuiet(k.interfaces, GROUP, "</GroupAddress>", ParseGroupElement);
    if GroupsIn(InterfaceSection(k)) != [] {
      assert |GroupsIn(FileText(k))| > |k.groupAddresses|;
    }
  }

  lemma TypeIsClosed(i: Interface)
    ensures EndsClosed(i.kind + TypeTail(i))
  {
    hide AttributesText, InterfaceTail;
    var text := i.kind + TypeTail(i);
    assert text[|text| - 4..] == " />\n";
  }

  /**
    * The group entries make the round trip exactly when no `<GroupAddress` in a type begins an element, up to the
    * next ` />` in the type or at the end of its line, with a readable address and a readable key.
    */
  lemma GroupsRoundTripExactly(k: Config)
    ensures GroupsIn(FileText(k)) == k.groupAddresses
            <==> forall i :: i in k.interfaces ==>
                   NothingReadable(i.kind + TypeTail(i), GROUP, ParseGroupElement)
  {
    hide FileText, Scan, TypeTail, Inert, TagOk, EndsClosed, NothingReadable;
    GroupTagIsInert();
    GroupsIffQuiet(k);
    forall i | i in k.interfaces
      ensures GroupsIn(i.kind + TypeTail(i)) == []
              <==> NothingReadable(i.kind + TypeTail(i), GROUP, ParseGroupElement)
    {
      TypeIsClosed(i);
      ScanFindsNothing(i.kind + TypeTail(i), GROUP, "</GroupAddress>", ParseGroupElement);
    }
  }

  /** So they do, with any keys and descriptions, whenever every type lacks the group tag or has no quote. */
  lemma GroupsRoundTrip(k: Config)
    requires forall i :: i in k.interfaces ==> Harmless(i.kind)
    ensures GroupsIn(FileText(k)) == k.groupAddresses
  {
    hide FileText, GroupsIn, TypeTail, Harmless;
    forall i | i in k.interfaces ensures GroupsIn(i.kind + TypeTail(i)) == [] {
      HarmlessType(i);
    }
    GroupsIffQuiet(k);
  }

  /**
    * The condition is needed: an interface whose type is the text of a group element adds that element to the
    * groups read back, for every group entry and every such interface.
    */
  lemma TypeActsAsElement(k: Config, i: Interface, g: GroupEntry)
    requires k.interfaces == [i] && i.kind == GroupElement(g)
    ensures GroupsIn(FileText(k)) == [g] + k.groupAddresses
  {
    hide FileText, GroupElement, Scan, TypeTail, InterfaceText, NoTag, TagOk, Inert;
    GroupTagIsInert();
    GroupsOfFile(k);
    OneLine(i);
    ScanFromType(i, GROUP, "</GroupAddress>", ParseGroupElement);
    TailHasNoTag(i, 'G');
    EmbeddedGroup(g, TypeTail(i));
  }

  lemma OneLine(i: Interface)
    ensures SectionText("<Interface", Map(InterfaceAttributes, [i])) == InterfaceText(i)
  {
    hide InterfaceAttributes, LineText;
    SectionStep([i]);
    var none: seq<Interface> := [];
    assert [i][1..] == none && SectionOf(none) == "";
  }

  lemma EmbeddedGroup(g: GroupEntry, after: string)
    requires NoTag(after, 'G')
    ensures GroupsIn(GroupElement(g) + after) == [g]
  {
    hide Scan, NoTag, TagOk, Inert, ParseGroupElement, Clean, AttributesText, GroupAttributes, Uncut;
    var body, close := GROUP + AttributesText(GroupAttributes(g)), "</GroupAddress>";
    GroupElementRoundTrip(g);
    GroupClean(g);
    CleanText(GroupAttributes(g));
    GroupTagIsInert();
    assert '>' !in body by {
      assert '>' !in GROUP;
    }
    NoAngleUncut(body);
    assert GroupElement(g) + after == body + " />" + after;
    ScanElement(body, after, GROUP, close, ParseGroupElement);
    ScanSkip(after, "", GROUP, close, ParseGroupElement);
    assert after + "" == after;
    ScanEmpty(GROUP, close, ParseGroupElement);
  }

  // ---- Interfaces ----

  /** Every interface type is free of quotes and of ` />`. */
  ghost predicate PlainTypes(interfaces: seq<Interface>) {
    forall i :: i in interfaces ==> PlainType(i.kind)
  }

  /** No interface type contains ` />`. */
  ghost predicate UncutTypes(interfaces: seq<Interface>) {
    forall i :: i in interfaces ==> Find(i.kind, " />") == None
  }

  lemma InterfacesParse(interfaces: seq<Interface>)
    requires UncutTypes(interfaces)
    ensures AllUncut("<Interface", Map(InterfaceAttributes, interfaces))
    ensures ParsesTo(Map(InterfaceAttributes, interfaces), "<Interface", ParseInterfaceElement,
                     Map(InterfaceAsSearched, interfaces))
  {
    hide Uncut, AttributesText, Find, ParseInterfaceElement, InterfaceAttributes, InterfaceAsSearched;
    forall i | 0 <= i < |interfaces|
      ensures Uncut("<Interface" + AttributesText(Map(InterfaceAttributes, interfaces)[i]))
      ensures ParseInterfaceElement("<Interface" + AttributesText(Map(InterfaceAttributes, interfaces)[i]) + " />")
              == Some(Map(InterfaceAsSearched, interfaces)[i])
    {
      assert interfaces[i] in interfaces && Find(interfaces[i].kind, " />") == None;
      InterfaceUncut(interfaces[i]);
      InterfaceSearched(interfaces[i]);
    }
  }

  lemma InterfacesRead(interfaces: seq<Interface>, rest: string)
    requires UncutTypes(interfaces)
    ensures Scan(SectionOf(interfaces) + rest, "<Interface", "</Interface>", ParseInterfaceElement)
            == Map(InterfaceAsSearched, interfaces)
               + Scan(rest, "<Interface", "</Interface>", ParseInterfaceElement)
  {
    hide Scan, AllUncut, ParsesTo, Map, UncutTypes;
    InterfacesParse(interfaces);
    ScanSection(Map(InterfaceAttributes, interfaces), rest, "<Interface", "</Interface>", ParseInterfaceElement,
                Map(InterfaceAsSearched, interfaces));
  }

  /** With a type that is not plain, the interfaces read are not those written. */
  lemma {:induction false} InterfacesDiffer(interfaces: seq<Interface>, rest: string)
    requires !PlainTypes(interfaces)
    ensures Scan(SectionOf(interfaces) + rest, "<Interface", "</Interface>", ParseInterfaceElement) != interfaces
    decreases |interfaces|
  {
    hide Scan, InterfaceText, PlainType, InterfaceAsSearched, SectionOf, ParseInterfaceElement;
    var first, others := interfaces[0], interfaces[1..];
    var after := SectionOf(others) + rest;
    assert SectionOf(interfaces) + rest == InterfaceText(first) + after by {
      SectionStep(interfaces);
    }
    if !PlainType(first.kind) {
      MangledType(first, after);
    } else {
      OthersNotPlain(interfaces);
      InterfacesDiffer(others, rest);
      FirstRead(first, after);
      TailsDiffer(interfaces, InterfaceAsSearched(first),
                  Scan(after, "<Interface", "</Interface>", ParseInterfaceElement));
    }
  }

  lemma OthersNotPlain(interfaces: seq<Interface>)
    requires !PlainTypes(interfaces) && PlainType(interfaces[0].kind)
    ensures !PlainTypes(interfaces[1..])
  {
    hide PlainType;
    assert interfaces == [interfaces[0]] + interfaces[1..];
  }

  lemma TailsDiffer<T>(all: seq<T>, x: T, tail: seq<T>)
    requires all != [] && tail != all[1..]
    ensures [x] + tail != all
  {
    assert ([x] + tail)[1..] == tail;
  }

  lemma FirstRead(i: Interface, after: string)
    requires PlainType(i.kind)
    ensures Scan(InterfaceText(i) + after, "<Interface", "</Interface>", ParseInterfaceElement)
            == [InterfaceAsSearched(i)] + Scan(after, "<Interface", "</Interface>", ParseInterfaceElement)
  {
    hide Scan, InterfaceText, InterfaceAsSearched, Find;
    InterfacesRead([i], after);
    OneLine(i);
    assert Map(InterfaceAsSearched, [i]) == [InterfaceAsSearched(i)];
  }

  /** What follows the interface section contains no interface. */
  lemma NoInterfaceBehind(k: Config)
    ensures Scan(DeviceSection(k) + (GroupSection(k) + FOOTER), "<Interface", "</Interface>", ParseInterfaceElement) == []
  {
    hide Scan, NoTag, DeviceSection, GroupSection, FOOTER;
    var tag, close := "<Interface", "</Interface>";
    DeviceSectionHasNoTag(k, 'I');
    GroupSectionHasNoTag(k, 'I');
    ScanSkip(DeviceSection(k), GroupSection(k) + FOOTER, tag, close, ParseInterfaceElement);
    ScanSkip(GroupSection(k), FOOTER, tag, close, ParseInterfaceElement);
    FooterIsPassed(tag, close, ParseInterfaceElement);
  }

  lemma GroupSectionHasNoTag(k: Config, c: char)
    requires c != 'G'
    ensures NoTag(GroupSection(k), c)
  {
    hide NoTag, ParsesTo, AllClean, GroupAttributes;
    GroupsClean(k.groupAddresses);
    CleanNoLess(Map(GroupAttributes, k.groupAddresses));
    NoTagSection(Map(GroupAttributes, k.groupAddresses), GROUP, c);
  }

  /** The interfaces of a file are those of its interface section. */
  lemma InterfacesOfFile(k: Config)
    ensures Scan(FileText(k), "<Interface", "</Interface>", ParseInterfaceElement)
            == Scan(SectionOf(k.interfaces) + (DeviceSection(k) + (GroupSection(k) + FOOTER)), "<Interface",
                    "</Interface>", ParseInterfaceElement)
  {
    hide Scan, HeaderText, NoTag, DeviceSection, GroupSection, FOOTER, Map, SectionText;
    var h, i, d, g := HeaderText(k.metadata), InterfaceSection(k), DeviceSection(k), GroupSection(k);
    NoTagHeader(k.metadata, 'I');
    Nested(h, i, d, g, FOOTER);
    ScanSkip(h, i + (d + (g + FOOTER)), "<Interface", "</Interface>", ParseInterfaceElement);
  }

  // ---- Devices ----

  lemma DevicesParse(k: Config)
    ensures AllClean(Map(DeviceAttributes, k.devices))
    ensures ParsesTo(Map(DeviceAttributes, k.devices), "<Device", ParseDeviceElement, Map(DeviceAsRead, k.devices))
  {
    hide Clean, AttributesText, ParseDeviceElement, DeviceAttributes, DeviceAsRead;
    forall i | 0 <= i < |k.devices|
      ensures Clean(Map(DeviceAttributes, k.devices)[i])
      ensures ParseDeviceElement("<Device" + AttributesText(Map(DeviceAttributes, k.devices)[i]) + " />")
              == Some(Map(DeviceAsRead, k.devices)[i])
    {
      DeviceClean(k.devices[i]);
      DeviceReadBack(k.devices[i]);
    }
  }

  lemma DeviceSectionRead(k: Config)
    ensures Scan(DeviceSection(k) + (GroupSection(k) + FOOTER), "<Device", "</Device>", ParseDeviceElement)
            == Map(DeviceAsRead, k.devices)
  {
    hide Scan, NoTag, GroupSection, FOOTER, AllClean, AllUncut, ParsesTo, Map;
    var tag, close := "<Device", "</Device>";
    var items := Map(DeviceAsRead, k.devices);
    DevicesParse(k);
    CleanUncut(tag, Map(DeviceAttributes, k.devices));
    GroupSectionHasNoTag(k, 'D');
    ScanSection(Map(DeviceAttributes, k.devices), GroupSection(k) + FOOTER, tag, close, ParseDeviceElement, items);
    ScanSkip(GroupSection(k), FOOTER, tag, close, ParseDeviceElement);
    FooterIsPassed(tag, close, ParseDeviceElement);
    assert items + [] == items;
  }

  lemma DeviceTagIsInert()
    ensures Inert("<Device") && TagOk("<Device", "</Device>") && "<Device"[1] == 'D' && '"' !in "<Device"
  {
  }

  /** For every keyring, the devices come back behind what the interface section contributes. */
  lemma DevicesOfFile(k: Config)
    ensures Scan(FileText(k), "<Device", "</Device>", ParseDeviceElement)
            == Scan(SectionOf(k.interfaces), "<Device", "</Device>", ParseDeviceElement) + Map(DeviceAsRead, k.devices)
  {
    hide Scan, HeaderText, NoTag, DeviceSection, GroupSection, FOOTER, Map, SectionText, EndsClosed, Inert, TagOk;
    var h, i, d, g := HeaderText(k.metadata), InterfaceSection(k), DeviceSection(k), GroupSection(k);
    var tag, close := "<Device", "</Device>";
    DeviceTagIsInert();
    NoTagHeader(k.metadata, 'D');
    InterfaceSectionIsClosed(k);
    DeviceSectionRead(k);
    Nested(h, i, d, g, FOOTER);
    ScanSkip(h, i + (d + (g + FOOTER)), tag, close, ParseDeviceElement);
    ScanClosed(i, d + (g + FOOTER), tag, close, ParseDeviceElement);
  }

  /** Types without quotes contribute none. */
  lemma NoDeviceInTypes(interfaces: seq<Interface>)
    requires forall i :: i in interfaces ==> '"' !in i.kind
    ensures Scan(SectionOf(interfaces), "<Device", "</Device>", ParseDeviceElement) == []
  {
    hide Scan, SectionOf, TypeTail, Deaf, Inert, TagOk;
    DeviceTagIsInert();
    forall i | i in interfaces
      ensures Scan(i.kind + TypeTail(i), "<Device", "</Device>", ParseDeviceElement) == []
    {
      DeviceReaderIsDeaf(i);
      QuietType(i.kind, i, "<Device", "</Device>", ParseDeviceElement);
    }
    SectionIsQuiet(interfaces, "<Device", "</Device>", ParseDeviceElement);
  }

  // ---- The complete file ----

  lemma MetadataOfFile(k: Config)
    ensures ParseMetadata(FileText(k)) == MetadataAsRead(k.metadata)
  {
    hide HeaderText, InterfaceSection, DeviceSection, GroupSection, FOOTER, ParseMetadata, MetadataAsRead;
    var h, i, d, g := HeaderText(k.metadata), InterfaceSection(k), DeviceSection(k), GroupSection(k);
    Nested(h, i, d, g, FOOTER);
    MetadataReadBack(k.metadata, i + (d + (g + FOOTER)));
  }

  lemma PlainIsHarmless(interfaces: seq<Interface>)
    requires PlainTypes(interfaces)
    ensures UncutTypes(interfaces) && forall i :: i in interfaces ==> '"' !in i.kind && Harmless(i.kind)
  {
    hide Find;
  }

  /**
    * What the reader makes of a whole written file, with quotes in the types or without: its interfaces are read by
    * the search through their types, and in front of the devices and groups written come those found in the types.
    */
  lemma KeyringAsSearched(k: Config)
    requires UncutTypes(k.interfaces)
    ensures ParseKeyring(FileText(k)) ==
            Config(MetadataAsRead(k.metadata), Map(InterfaceAsSearched, k.interfaces),
                   Scan(SectionOf(k.interfaces), "<Device", "</Device>", ParseDeviceElement)
                   + Map(DeviceAsRead, k.devices),
                   GroupsIn(SectionOf(k.interfaces)) + k.groupAddresses)
  {
    hide FileText, Scan, ParseMetadata, MetadataAsRead, InterfaceAsSearched, DeviceAsRead, Map, SectionText;
    hide DeviceSection, GroupSection, UncutTypes;
    MetadataOfFile(k);
    InterfacesOfFile(k);
    InterfacesRead(k.interfaces, DeviceSection(k) + (GroupSection(k) + FOOTER));
    NoInterfaceBehind(k);
    DevicesOfFile(k);
    GroupsOfFile(k);
    assert Map(InterfaceAsSearched, k.interfaces) + [] == Map(InterfaceAsSearched, k.interfaces);
  }

  lemma SearchedIsRead(interfaces: seq<Interface>)
    requires forall i :: i in interfaces ==> '"' !in i.kind
    ensures Map(InterfaceAsSearched, interfaces) == Map(InterfaceAsRead, interfaces)
  {
    hide InterfaceAsSearched, InterfaceAsRead, ParseInterfaceElement, InterfaceElement;
    forall n | 0 <= n < |interfaces|
      ensures Map(InterfaceAsSearched, interfaces)[n] == Map(InterfaceAsRead, interfaces)[n]
    {
      InterfaceReadBack(interfaces[n]);
      InterfaceSearched(interfaces[n]);
    }
  }

  /** With plain types every part is read back on its own. */
  lemma KeyringReadBack(k: Config)
    requires PlainTypes(k.interfaces)
    ensures ParseKeyring(FileText(k)) ==
            Config(MetadataAsRead(k.metadata), Map(InterfaceAsRead, k.interfaces), Map(DeviceAsRead, k.devices),
                   k.groupAddresses)
  {
    hide FileText, Scan, MetadataAsRead, InterfaceAsRead, InterfaceAsSearched, DeviceAsRead, Map, SectionOf;
    hide ParseMetadata, PlainTypes, Harmless, UncutTypes, GroupsIn;
    PlainIsHarmless(k.interfaces);
    KeyringAsSearched(k);
    SearchedIsRead(k.interfaces);
    NoDeviceInTypes(k.interfaces);
    GroupsRoundTrip(k);
    assert [] + Map(DeviceAsRead, k.devices) == Map(DeviceAsRead, k.devices);
  }

  /** No text in the keyring ends like the start of an attribute whose value that would change. */
  ghost predicate Unshadowed(k: Config) {
    && MetadataUnshadowed(k.metadata)
    && (forall i :: 0 <= i < |k.interfaces| ==> InterfaceUnshadowed(k.interfaces[i]))
    && (forall i :: 0 <= i < |k.devices| ==> KeysUnshadowed(k.devices[i]))
  }

  lemma AsReadFixed(k: Config)
    ensures MetadataAsRead(k.metadata) == k.metadata <==> MetadataUnshadowed(k.metadata)
    ensures forall i: Interface :: InterfaceAsRead(i) == i <==> InterfaceUnshadowed(i)
    ensures forall d: Device :: DeviceAsRead(d) == d <==> KeysUnshadowed(d)
  {
    hide Shadows, EndsWith, UnescapeXml, Hidden, Gap, NoEntity;
    forall i: Interface
      ensures InterfaceAsRead(i) == i <==> InterfaceUnshadowed(i)
    {
      UnescapeFixed(i.kind);
    }
  }

  lemma MapFixed<T>(f: T -> T, xs: seq<T>)
    ensures Map(f, xs) == xs <==> forall i :: 0 <= i < |xs| ==> f(xs[i]) == xs[i]
  {
    if Map(f, xs) == xs {
      forall i | 0 <= i < |xs|
        ensures f(xs[i]) == xs[i]
      {
        assert Map(f, xs)[i] == xs[i];
      }
    }
  }

  /**
    * Every keyring: it comes back exactly as it was written, in all four parts, if and only if its interface types
    * contain no quote and no ` />` and it is unshadowed.
    */
  lemma KeyringRoundTrip(k: Config)
    ensures ParseKeyring(FileText(k)) == k <==> PlainTypes(k.interfaces) && Unshadowed(k)
  {
    hide FileText, MetadataAsRead, InterfaceAsRead, DeviceAsRead, Map, PlainTypes, Scan, ParseMetadata, GroupsIn;
    hide MetadataUnshadowed, InterfaceUnshadowed, KeysUnshadowed, SectionOf, DeviceSection, GroupSection;
    if PlainTypes(k.interfaces) {
      KeyringReadBack(k);
      AsReadFixed(k);
      MapFixed(InterfaceAsRead, k.interfaces);
      MapFixed(DeviceAsRead, k.devices);
    } else {
      InterfacesOfFile(k);
      InterfacesDiffer(k.interfaces, DeviceSection(k) + (GroupSection(k) + FOOTER));
    }
  }
}
