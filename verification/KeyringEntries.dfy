/** Devices and metadata: entries whose free-text values can shadow a later attribute. */
module KeyringEntries {
  import opened Bytes
  import opened Text
  import opened XmlText
  import opened XmlScan
  import opened Addresses
  import opened Keyring
  import opened KeyringTrip

  // ---- Suffixes through escaping ----

  lemma EscapedSnoc(s: string)
    requires s != ""
    ensures Escaped(s) == Escaped(s[..|s| - 1]) + EscapeChar(s[|s| - 1])
  {
    hide Escaped, EscapeChar;
    var c := s[|s| - 1];
    assert s == s[..|s| - 1] + [c];
    EscapedAppend(s[..|s| - 1], [c]);
    EscapedOne(c);
  }

  lemma EscapedOne(c: char)
    ensures Escaped([c]) == EscapeChar(c)
  {
    hide EscapeChar;
    assert Escaped([c]) == EscapeChar(c) + Escaped([c][1..]);
  }

  lemma EscapeCharEnd(c: char)
    ensures var e := EscapeChar(c);
            e != "" && (e == [c] || (Special(c) && e[|e| - 1] == ';'))
  {
  }

  /** Escaping does not create or destroy a suffix of unescaped characters other than `;`. */
  lemma {:induction false} EscapedEndsWith(s: string, suffix: string)
    requires forall i :: 0 <= i < |suffix| ==> !Special(suffix[i]) && suffix[i] != ';'
    ensures EndsWith(Escaped(s), suffix) <==> EndsWith(s, suffix)
    decreases |suffix|
  {
    hide Escaped, EscapeChar, EndsWith, Special;
    if suffix == "" || s == "" {
      EndsWithEdges(s, suffix);
    } else {
      var c, last := s[|s| - 1], suffix[|suffix| - 1];
      var front, rest := s[..|s| - 1], suffix[..|suffix| - 1];
      EscapedSnoc(s);
      EscapeCharEnd(c);
      assert s == front + [c];
      LastChar(Escaped(front), EscapeChar(c), suffix);
      LastChar(front, [c], suffix);
      if c == last {
        EscapedEndsWith(front, rest);
      }
    }
  }

  lemma EndsWithEdges(s: string, suffix: string)
    requires suffix == "" || s == ""
    ensures EndsWith(Escaped(s), suffix) <==> EndsWith(s, suffix)
  {
  }

  lemma LastChar(a: string, b: string, suffix: string)
    requires b != "" && suffix != ""
    ensures b[|b| - 1] != suffix[|suffix| - 1] ==> !EndsWith(a + b, suffix)
    ensures |b| == 1 && b[0] == suffix[|suffix| - 1] ==>
            (EndsWith(a + b, suffix) <==> EndsWith(a, suffix[..|suffix| - 1]))
  {
    var s, m := a + b, |suffix|;
    if m <= |s| {
      assert s[|s| - m..][m - 1] == s[|s| - 1] == b[|b| - 1];
      if |b| == 1 && b[0] == suffix[m - 1] {
        assert s[|s| - m..] == a[|a| - (m - 1)..] + b;
        assert suffix == suffix[..m - 1] + b;
        SameEnd(a[|a| - (m - 1)..], suffix[..m - 1], b);
      }
    }
  }

  lemma NameEqualsIsPlain(name: string)
    requires CleanName(name)
    ensures var s := name + "="; forall i :: 0 <= i < |s| ==> !Special(s[i]) && s[i] != ';'
  {
  }

  /** The text ends in `name=`, so that its closing quote looks like the start of that attribute. */
  predicate Shadows(text: Option<string>, name: string) {
    text.Some? && EndsWith(text.value, name + "=")
  }

  lemma EscapedShadow(text: string, name: string)
    requires CleanName(name)
    ensures EndsWith(Escaped(text), name + "=") <==> Shadows(Some(text), name)
  {
    NameEqualsIsPlain(name);
    EscapedEndsWith(text, name + "=");
  }

  // ---- What a shadowed key attribute yields ----

  lemma {:induction false} NotHex(s: string, c: char)
    requires c in s && HexValue(c) == None
    ensures HexDecode(s) == None
  {
    if |s| >= 2 && c in s[2..] {
      NotHex(s[2..], c);
    }
  }

  lemma {:induction false} StripKeeps(s: string, c: char)
    requires c in s && c != ' ' && c != ':'
    ensures c in StripSeparators(s)
  {
    if c != s[0] {
      StripKeeps(s[1..], c);
    }
  }

  /** The text between two attributes is no key. */
  lemma GapIsNoKey(name: string)
    requires CleanName(name)
    ensures KeyOf(Some(UnescapeXml(" " + name + "="))) == None
  {
    var s := " " + name + "=";
    assert '&' !in s;
    assert s[|s| - 1] == '=';
    StripKeeps(s, '=');
    NotHex(StripSeparators(s), '=');
  }

  lemma ShadowedKey(own: string, text: string, rest: seq<Attribute>, name: string)
    requires CleanName(name) && DifferentEnds(own, name) && Shadows(Some(text), name) && Clean(rest)
    ensures KeyOf(Looked(TextAttribute(own, Some(text)) + rest, name)) == None
  {
    var attrs := TextAttribute(own, Some(text)) + rest;
    EscapedShadow(text, name);
    NoSuffix(own, name);
    if rest != [] {
      assert CleanAttribute(rest[0]) && attrs[1] == rest[0];
      GapIsNoKey(rest[0].name);
    }
  }

  lemma UnshadowedText(own: string, text: Option<string>, rest: seq<Attribute>, name: string)
    requires CleanName(name) && DifferentEnds(own, name) && !Shadows(text, name)
    ensures Looked(TextAttribute(own, text) + rest, name) == Looked(rest, name)
  {
    hide Looked, EndsWith;
    if text.Some? {
      EscapedShadow(text.value, name);
    }
    PastText(own, text, rest, name);
  }

  // ---- Devices ----

  function DeviceElement(d: Device): (s: string) {
    "<Device" + AttributesText(DeviceAttributes(d)) + " />"
  }

  ghost function DeviceKeys(d: Device): (r: seq<Attribute>) {
    KeyAttribute("ToolKey", d.toolKey)
    + (KeyAttribute("ManagementPassword", d.managementPassword)
       + KeyAttribute("AuthenticationCode", d.authenticationCode))
  }

  lemma DeviceKeyLookups(d: Device)
    ensures KeyOf(Looked(DeviceKeys(d), "ToolKey")) == d.toolKey
    ensures KeyOf(Looked(DeviceKeys(d), "ManagementPassword")) == d.managementPassword
    ensures KeyOf(Looked(DeviceKeys(d), "AuthenticationCode")) == d.authenticationCode
    ensures Looked(DeviceKeys(d), "SerialNumber") == None
  {
    hide Looked, KeyAttribute, KeyOf;
    var t, m, a := d.toolKey, d.managementPassword, d.authenticationCode;
    var ms, as' := KeyAttribute("ManagementPassword", m), KeyAttribute("AuthenticationCode", a);
    assert as' == as' + [];
    HitKey("ToolKey", t, ms + as');
    PastKey("ManagementPassword", m, as', "ToolKey");
    PastKey("AuthenticationCode", a, [], "ToolKey");
    PastKey("ToolKey", t, ms + as', "ManagementPassword");
    HitKey("ManagementPassword", m, as');
    PastKey("AuthenticationCode", a, [], "ManagementPassword");
    PastKey("ToolKey", t, ms + as', "AuthenticationCode");
    PastKey("ManagementPassword", m, as', "AuthenticationCode");
    HitKey("AuthenticationCode", a, []);
    PastKey("ToolKey", t, ms + as', "SerialNumber");
    PastKey("ManagementPassword", m, as', "SerialNumber");
    PastKey("AuthenticationCode", a, [], "SerialNumber");
    NothingFound("ToolKey");
    NothingFound("ManagementPassword");
    NothingFound("AuthenticationCode");
    NothingFound("SerialNumber");
  }

  /** The key found under `name` behind the serial number. */
  lemma DeviceKey(d: Device, name: string, key: Option<Octets>)
    requires CleanName(name) && DifferentEnds("SerialNumber", name) && DifferentEnds("IndividualAddress", name)
    requires KeyOf(Looked(DeviceKeys(d), name)) == key
    ensures KeyOf(Looked(DeviceAttributes(d), name)) == if Shadows(d.serialNumber, name) then None else key
  {
    var text, keys := IndividualText(d.address), DeviceKeys(d);
    var tail := TextAttribute("SerialNumber", d.serialNumber) + keys;
    NumeralsAreTame(d.address, 0, 0, []);
    DeviceKeysClean(d);
    hide Looked, EndsWith, KeyOf, IndividualText, TextAttribute, DeviceKeys, Clean;
    TameNumeral(text, name);
    PastPlain("IndividualAddress", text, tail, name);
    if Shadows(d.serialNumber, name) {
      ShadowedKey("SerialNumber", d.serialNumber.value, keys, name);
    } else {
      UnshadowedText("SerialNumber", d.serialNumber, keys, name);
    }
  }

  lemma DeviceKeysClean(d: Device)
    ensures Clean(DeviceKeys(d))
    ensures DeviceAttributes(d) == PlainAttribute("IndividualAddress", IndividualText(d.address))
                                   + (TextAttribute("SerialNumber", d.serialNumber) + DeviceKeys(d))
  {
    hide Clean, CleanName;
    DeviceNames();
    KeyClean("ToolKey", d.toolKey);
    KeyClean("ManagementPassword", d.managementPassword);
    KeyClean("AuthenticationCode", d.authenticationCode);
    CleanAppend(KeyAttribute("ManagementPassword", d.managementPassword),
                KeyAttribute("AuthenticationCode", d.authenticationCode));
    CleanAppend(KeyAttribute("ToolKey", d.toolKey),
                KeyAttribute("ManagementPassword", d.managementPassword)
                + KeyAttribute("AuthenticationCode", d.authenticationCode));
  }

  lemma DeviceTexts(d: Device)
    ensures Looked(DeviceAttributes(d), "IndividualAddress") == Some(IndividualText(d.address))
    ensures Looked(DeviceAttributes(d), "SerialNumber") == d.serialNumber
  {
    var text, keys := IndividualText(d.address), DeviceKeys(d);
    var tail := TextAttribute("SerialNumber", d.serialNumber) + keys;
    DeviceKeysClean(d);
    NumeralsAreTame(d.address, 0, 0, []);
    assert UnescapeXml(text) == text;
    DeviceKeyLookups(d);
    hide Looked, EndsWith, IndividualText, TextAttribute, DeviceKeys, UnescapeXml;
    HitPlain("IndividualAddress", text, tail);
    TameNumeral(text, "SerialNumber");
    PastPlain("IndividualAddress", text, tail, "SerialNumber");
    HitText("SerialNumber", d.serialNumber, keys);
  }

  /** What the reader makes of a written device: a key whose name is shadowed by the serial number is lost. */
  function DeviceAsRead(d: Device): (r: Device) {
    d.(toolKey := if Shadows(d.serialNumber, "ToolKey") then None else d.toolKey,
       managementPassword := if Shadows(d.serialNumber, "ManagementPassword") then None else d.managementPassword,
       authenticationCode := if Shadows(d.serialNumber, "AuthenticationCode") then None else d.authenticationCode)
  }

  lemma DeviceReadBack(d: Device)
    ensures ParseDeviceElement(DeviceElement(d)) == Some(DeviceAsRead(d))
  {
    hide Looked, EndsWith, KeyOf, IndividualText, ParseIndividual, AttributesText, DeviceAttributes, DeviceKeys;
    hide ExtractAttribute, Clean, Shadows, CleanName;
    DeviceNames();
    DeviceKeyLookups(d);
    DeviceKey(d, "ToolKey", d.toolKey);
    DeviceKey(d, "ManagementPassword", d.managementPassword);
    DeviceKey(d, "AuthenticationCode", d.authenticationCode);
    DeviceTexts(d);
    DeviceClean(d);
    IndividualTextRoundTrip(d.address);
    var attrs := DeviceAttributes(d);
    NamesOk();
    ElementAttribute("<Device", attrs, "IndividualAddress");
    ElementAttribute("<Device", attrs, "SerialNumber");
    ElementAttribute("<Device", attrs, "ToolKey");
    ElementAttribute("<Device", attrs, "ManagementPassword");
    ElementAttribute("<Device", attrs, "AuthenticationCode");
  }

  lemma CleanNameOk(name: string)
    requires CleanName(name)
    ensures NameOk(name)
  {
  }

  lemma NamesOk()
    ensures NameOk("IndividualAddress") && NameOk("SerialNumber") && NameOk("ToolKey")
    ensures NameOk("ManagementPassword") && NameOk("AuthenticationCode")
  {
    hide CleanName, NameOk;
    DeviceNames();
    CleanNameOk("IndividualAddress");
    CleanNameOk("SerialNumber");
    CleanNameOk("ToolKey");
    CleanNameOk("ManagementPassword");
    CleanNameOk("AuthenticationCode");
  }

  /** The serial number does not end in the name, followed by `=`, of a key the device has. */
  predicate KeysUnshadowed(d: Device) {
    && !(d.toolKey.Some? && Shadows(d.serialNumber, "ToolKey"))
    && !(d.managementPassword.Some? && Shadows(d.serialNumber, "ManagementPassword"))
    && !(d.authenticationCode.Some? && Shadows(d.serialNumber, "AuthenticationCode"))
  }

  /** A device makes the round trip exactly when its serial number shadows none of its keys. */
  lemma DeviceRoundTrip(d: Device)
    ensures ParseDeviceElement(DeviceElement(d)) == Some(d) <==> KeysUnshadowed(d)
  {
    hide ParseDeviceElement, DeviceElement, Shadows;
    DeviceReadBack(d);
  }

  // ---- What a shadowed text attribute yields ----

  /** What the search takes for the value: the text between two attributes. */
  function Gap(name: string): (s: string) {
    " " + name + "="
  }

  lemma GapUnescaped(name: string)
    requires CleanName(name)
    ensures UnescapeXml(" " + name + "=") == Gap(name)
  {
    assert '&' !in Gap(name);
  }

  /** An attribute whose value ends in `name=`: the search yields the text in front of the next attribute's value. */
  lemma Shadowed(own: string, v: string, rest: seq<Attribute>, name: string)
    requires DifferentEnds(own, name) && EndsWith(v, name + "=")
    requires rest == [] || CleanName(rest[0].name)
    ensures Looked(PlainAttribute(own, v) + rest, name) == if rest == [] then None else Some(Gap(rest[0].name))
  {
    hide EndsWith, UnescapeXml, CleanName, Gap;
    var attrs := PlainAttribute(own, v) + rest;
    NoSuffix(own, name);
    if rest != [] {
      assert attrs[1] == rest[0];
      GapUnescaped(rest[0].name);
    }
  }

  // ---- Metadata ----

  /** The text in front of the first value behind `Created`, and behind `CreatedBy`. */
  function GapBehindCreated(m: Metadata): (r: Option<string>) {
    if m.creator.Some? then Some(Gap("CreatedBy")) else GapBehindCreator(m)
  }

  function GapBehindCreator(m: Metadata): (r: Option<string>) {
    if m.project.Some? then Some(Gap("Project")) else None
  }

  /** What the reader makes of written metadata. */
  function MetadataAsRead(m: Metadata): (r: Metadata) {
    Metadata(
      if m.created.None? && Shadows(m.creator, "Created") then GapBehindCreator(m) else m.created,
      if Shadows(m.created, "CreatedBy") then GapBehindCreated(m) else m.creator,
      if Shadows(m.created, "Project") then GapBehindCreated(m)
      else if Shadows(m.creator, "Project") then GapBehindCreator(m)
      else m.project)
  }

  /** Searching past a text attribute of another name. */
  lemma PastOrShadowed(own: string, t: Option<string>, rest: seq<Attribute>, name: string)
    requires CleanName(name) && DifferentEnds(own, name) && (rest == [] || CleanName(rest[0].name))
    ensures Looked(TextAttribute(own, t) + rest, name)
            == if Shadows(t, name) then (if rest == [] then None else Some(Gap(rest[0].name))) else Looked(rest, name)
  {
    hide Looked, CleanName, EndsWith, Gap;
    if Shadows(t, name) {
      EscapedShadow(t.value, name);
      Shadowed(own, Escaped(t.value), rest, name);
    } else {
      UnshadowedText(own, t, rest, name);
    }
  }

  lemma BehindCreated(m: Metadata)
    ensures var p := TextAttribute("Project", m.project);
            var b := TextAttribute("CreatedBy", m.creator) + p;
            && (p == [] || (CleanName(p[0].name) && p[0].name == "Project")) && (p == [] <==> m.project.None?)
            && (b == [] || CleanName(b[0].name))
            && GapBehindCreator(m) == (if p == [] then None else Some(Gap(p[0].name)))
            && GapBehindCreated(m) == (if b == [] then None else Some(Gap(b[0].name)))
  {
    hide Gap, CleanName;
    MetadataNames();
  }

  lemma MetadataLookups(m: Metadata)
    ensures var a := MetadataAttributes(m);
            Metadata(Looked(a, "Created"), Looked(a, "CreatedBy"), Looked(a, "Project")) == MetadataAsRead(m)
  {
    hide Looked, TextAttribute, CleanName, Gap, Shadows, GapBehindCreated, GapBehindCreator;
    MetadataNames();
    BehindCreated(m);
    var p := TextAttribute("Project", m.project);
    var b := TextAttribute("CreatedBy", m.creator) + p;
    assert p == p + [];
    HitText("Created", m.created, b);
    PastOrShadowed("CreatedBy", m.creator, p, "Created");
    LastAttribute("Project", m.project, "Created");
    PastOrShadowed("Created", m.created, b, "CreatedBy");
    HitText("CreatedBy", m.creator, p);
    LastAttribute("Project", m.project, "CreatedBy");
    PastOrShadowed("Created", m.created, b, "Project");
    PastOrShadowed("CreatedBy", m.creator, p, "Project");
    HitText("Project", m.project, []);
    NothingFound("Project");
  }

  /** The last attribute hides nothing: no quote follows its own. */
  lemma LastAttribute(own: string, t: Option<string>, name: string)
    requires CleanName(name) && DifferentEnds(own, name)
    ensures Looked(TextAttribute(own, t), name) == None
  {
    hide Looked, CleanName, TextAttribute, Gap, Shadows;
    PastOrShadowed(own, t, [], name);
    NothingFound(name);
    assert TextAttribute(own, t) + [] == TextAttribute(own, t);
  }

  /** The tag of the document element is found and read, whatever follows it. */
  /** The document tag is found behind the declaration, and cut out to its `>`. */
  lemma DocumentTag(open: string, after: string)
    requires '>' !in open && "<Keyring" <= open
    ensures ParseMetadata(XML_DECLARATION + (open + ">" + after)) ==
            Metadata(ExtractAttribute(open + ">", "Created"), ExtractAttribute(open + ">", "CreatedBy"),
                     ExtractAttribute(open + ">", "Project"))
  {
    hide XML_DECLARATION, ExtractAttribute, NoTag, Find;
    var text := open + ">" + after;
    NoTagDeclaration('K');
    FindSkip(XML_DECLARATION, text, "<Keyring");
    KeyringTagFirst(text);
    FindAfter(open, ">", after);
    CutBehind(XML_DECLARATION, text, 0, |open| + 1);
    CutBehind(XML_DECLARATION, text, 0, 0);
    assert text[0..|open| + 1] == open + ">" && text[0..] == text;
  }

  lemma HeaderSplit(m: Metadata, rest: string)
    ensures HeaderText(m) + rest ==
            XML_DECLARATION + ("<Keyring" + AttributesText(MetadataAttributes(m)) + ">" + ("\n" + rest))
  {
    hide XML_DECLARATION, AttributesText, MetadataAttributes;
  }

  lemma MetadataReadBack(m: Metadata, rest: string)
    ensures ParseMetadata(HeaderText(m) + rest) == MetadataAsRead(m)
  {
    hide AttributesText, Clean, MetadataAttributes, XML_DECLARATION, Looked, ExtractAttribute, MetadataAsRead;
    hide HeaderText, ParseMetadata;
    var attrs := MetadataAttributes(m);
    HeaderSplit(m, rest);
    MetadataClean(m);
    CleanText(attrs);
    DocumentTag("<Keyring" + AttributesText(attrs), "\n" + rest);
    MetadataNames();
    ExtractFromTag("<Keyring", attrs, ">", "Created");
    ExtractFromTag("<Keyring", attrs, ">", "CreatedBy");
    ExtractFromTag("<Keyring", attrs, ">", "Project");
    MetadataLookups(m);
  }

  /** A text that ends in the name of a later attribute and `=` does no harm only if that attribute reads like the gap. */
  predicate MetadataUnshadowed(m: Metadata) {
    && (m.created.None? && Shadows(m.creator, "Created") ==> m.project.None?)
    && (Shadows(m.created, "CreatedBy") ==> m.creator == GapBehindCreated(m))
    && (Shadows(m.created, "Project") ==> m.project == GapBehindCreated(m))
    && (!Shadows(m.created, "Project") && Shadows(m.creator, "Project") ==> m.project == GapBehindCreator(m))
  }

  lemma MetadataRoundTrip(m: Metadata, rest: string)
    ensures ParseMetadata(HeaderText(m) + rest) == m <==> MetadataUnshadowed(m)
  {
    hide ParseMetadata, HeaderText, Shadows, Gap;
    MetadataReadBack(m, rest);
  }

  lemma KeyringTagFirst(s: string)
    requires "<Keyring" <= s
    ensures Find(s, "<Keyring") == Some(0)
  {
    assert MatchAt(s, "<Keyring", 0);
  }

  /** Without a document tag, or with one that does not end, there are no metadata. */
  lemma NoDocumentTag(xml: string)
    requires var start := Find(xml, "<Keyring"); start.None? || '>' !in xml[start.value..]
    ensures ParseMetadata(xml) == Metadata(None, None, None)
  {
    hide ExtractAttribute, Find;
    var start := Find(xml, "<Keyring");
    if start.Some? {
      FindAbsent(xml[start.value..], ">");
    }
  }
}
