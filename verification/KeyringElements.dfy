/** The element readers on any element: whatever attributes it has, in whatever order. */
module KeyringElements {
  import opened Bytes
  import opened Text
  import opened XmlScan
  import opened Addresses
  import opened Numerals
  import opened Keyring
  import opened KeyringTrip
  import opened KeyringEntries
  import opened KeyringInterfaces

  /** An element with the given attributes. */
  function Element(tag: string, attrs: seq<Attribute>): (s: string) {
    tag + AttributesText(attrs) + " />"
  }

  /** The value found under a name is a notation of the address, or of the key. */
  ghost predicate SaysGroup(attrs: seq<Attribute>, name: string, g: GroupAddress) {
    var v := Looked(attrs, name);
    v.Some? && ThreeNumerals(v.value, '/', g / 2048, (g / 256) % 8, g % 256)
  }

  ghost predicate SaysIndividual(attrs: seq<Attribute>, name: string, a: IndividualAddress) {
    var v := Looked(attrs, name);
    v.Some? && ThreeNumerals(v.value, '.', a / 4096, (a / 256) % 16, a % 256)
  }

  predicate SaysKey(attrs: seq<Attribute>, name: string, key: Octets) {
    var v := Looked(attrs, name);
    v.Some? && Lower(Replace(Replace(v.value, " ", ""), ":", "")) == HexEncode(key)
  }

  lemma KeySaid(attrs: seq<Attribute>, name: string, key: Octets)
    ensures KeyOf(Looked(attrs, name)) == Some(key) <==> SaysKey(attrs, name, key)
  {
    hide KeyFromHex, Looked, Lower, Replace, HexEncode;
    var v := Looked(attrs, name);
    if v.Some? {
      KeyFromHexExactly(v.value, key);
    }
  }

  /**
    * A group element yields an entry if and only if it has a readable address and a readable key; the description is
    * optional.
    */
  lemma GroupElementExactly(attrs: seq<Attribute>, g: GroupEntry)
    requires AttributesOk(attrs)
    ensures ParseGroupElement(Element("<GroupAddress", attrs)) == Some(g) <==>
            && SaysGroup(attrs, "Address", g.address) && SaysKey(attrs, "Key", g.key)
            && g.description == Looked(attrs, "Description")
  {
    hide ExtractAttribute, AttributesText, AttributesOk, Looked, KeyOf, ParseGroup, SaysKey, ThreeNumerals;
    TagAttribute("<GroupAddress", attrs, "Address");
    TagAttribute("<GroupAddress", attrs, "Key");
    TagAttribute("<GroupAddress", attrs, "Description");
    var v := Looked(attrs, "Address");
    if v.Some? {
      ParseGroupExactly(v.value, g.address);
    }
    KeySaid(attrs, "Key", g.key);
  }

  /** A key field of what is read: the key the attribute says, or none if it says none. */
  ghost predicate OptionalKey(attrs: seq<Attribute>, name: string, key: Option<Octets>) {
    && (key.Some? ==> SaysKey(attrs, name, key.value))
    && (key.None? ==> forall k :: !SaysKey(attrs, name, k))
  }

  lemma OptionalKeyRead(attrs: seq<Attribute>, name: string, key: Option<Octets>)
    ensures KeyOf(Looked(attrs, name)) == key <==> OptionalKey(attrs, name, key)
  {
    hide KeyOf, Looked, SaysKey;
    forall k ensures KeyOf(Looked(attrs, name)) == Some(k) <==> SaysKey(attrs, name, k) {
      KeySaid(attrs, name, k);
    }
  }

  lemma DeviceNamesOk()
    ensures NameOk("IndividualAddress") && NameOk("SerialNumber") && NameOk("ToolKey")
    ensures NameOk("ManagementPassword") && NameOk("AuthenticationCode")
  {
    hide CleanName, NameOk;
    DeviceNames();
    CleanNameOk("IndividualAddress");
    CleanNameOk("SerialNumber");
    CleanNameOk("ToolKey");
    CleanNameOk("ManagementPassword");
    CleanNameOk("AuthenticationCode");
  }

  /** A device element yields a device if and only if its address is readable; unreadable keys are left out. */
  lemma DeviceElementExactly(attrs: seq<Attribute>, d: Device)
    requires AttributesOk(attrs)
    ensures ParseDeviceElement(Element("<Device", attrs)) == Some(d) <==>
            && SaysIndividual(attrs, "IndividualAddress", d.address)
            && d.serialNumber == Looked(attrs, "SerialNumber")
            && OptionalKey(attrs, "ToolKey", d.toolKey)
            && OptionalKey(attrs, "ManagementPassword", d.managementPassword)
            && OptionalKey(attrs, "AuthenticationCode", d.authenticationCode)
  {
    hide ExtractAttribute, AttributesText, AttributesOk, Looked, KeyOf, ParseIndividual, OptionalKey, ThreeNumerals;
    hide NameOk;
    DeviceNamesOk();
    TagAttribute("<Device", attrs, "IndividualAddress");
    TagAttribute("<Device", attrs, "SerialNumber");
    TagAttribute("<Device", attrs, "ToolKey");
    TagAttribute("<Device", attrs, "ManagementPassword");
    TagAttribute("<Device", attrs, "AuthenticationCode");
    var v := Looked(attrs, "IndividualAddress");
    if v.Some? {
      ParseIndividualExactly(v.value, d.address);
    }
    OptionalKeyRead(attrs, "ToolKey", d.toolKey);
    OptionalKeyRead(attrs, "ManagementPassword", d.managementPassword);
    OptionalKeyRead(attrs, "AuthenticationCode", d.authenticationCode);
  }

  /** What is read of a number, a text or a password that may be missing or unreadable. */
  ghost predicate UserIdRead(attrs: seq<Attribute>, id: byte) {
    var v := Looked(attrs, "UserID");
    (v.Some? && Numeral(v.value, id)) || (id == 1 && (v.None? || forall n: byte :: !Numeral(v.value, n)))
  }

  ghost predicate PasswordRead(attrs: seq<Attribute>, password: Octets) {
    || SaysKey(attrs, "UserPassword", password)
    || (password == Zeros(16) && forall key :: !SaysKey(attrs, "UserPassword", key))
  }

  lemma UserIdIsRead(attrs: seq<Attribute>, id: byte)
    ensures var v := Looked(attrs, "UserID");
            OrElse(if v.None? then None else ParseU8(v.value), 1) == id <==> UserIdRead(attrs, id)
  {
    hide Looked, ParseU8, Numeral;
    var v := Looked(attrs, "UserID");
    if v.Some? {
      forall n: byte ensures ParseU8(v.value) == Some(n) <==> Numeral(v.value, n) {
        ParseU8Exactly(v.value, n);
      }
    }
  }

  lemma PasswordIsRead(attrs: seq<Attribute>, password: Octets)
    ensures OrElse(KeyOf(Looked(attrs, "UserPassword")), Zeros(16)) == password <==> PasswordRead(attrs, password)
  {
    hide Looked, KeyOf, SaysKey;
    forall key ensures KeyOf(Looked(attrs, "UserPassword")) == Some(key) <==> SaysKey(attrs, "UserPassword", key) {
      KeySaid(attrs, "UserPassword", key);
    }
  }

  /**
    * An interface element yields an interface if and only if its address is readable; what is missing or unreadable
    * besides that gets its default.
    */
  lemma InterfaceElementExactly(attrs: seq<Attribute>, i: Interface)
    requires AttributesOk(attrs)
    ensures ParseInterfaceElement(Element("<Interface", attrs)) == Some(i) <==>
            && SaysIndividual(attrs, "IndividualAddress", i.address)
            && i.kind == OrElse(Looked(attrs, "Type"), "Unknown")
            && i.host == OrElse(Looked(attrs, "Host"), "0.0.0.0")
            && UserIdRead(attrs, i.userId) && PasswordRead(attrs, i.userPassword)
            && OptionalKey(attrs, "DeviceAuthentication", i.deviceAuthentication)
            && OptionalKey(attrs, "BackboneKey", i.backboneKey)
  {
    hide ExtractAttribute, AttributesText, AttributesOk, Looked, KeyOf, ParseIndividual, SaysKey, ThreeNumerals, NameOk;
    hide ParseU8, UserIdRead, PasswordRead, OptionalKey;
    InterfaceNamesOk();
    TagAttribute("<Interface", attrs, "IndividualAddress");
    TagAttribute("<Interface", attrs, "Type");
    TagAttribute("<Interface", attrs, "Host");
    TagAttribute("<Interface", attrs, "UserID");
    TagAttribute("<Interface", attrs, "UserPassword");
    TagAttribute("<Interface", attrs, "DeviceAuthentication");
    TagAttribute("<Interface", attrs, "BackboneKey");
    var v := Looked(attrs, "IndividualAddress");
    if v.Some? {
      ParseIndividualExactly(v.value, i.address);
    }
    UserIdIsRead(attrs, i.userId);
    PasswordIsRead(attrs, i.userPassword);
    OptionalKeyRead(attrs, "DeviceAuthentication", i.deviceAuthentication);
    OptionalKeyRead(attrs, "BackboneKey", i.backboneKey);
  }
}
